/** The symbol table of support/kconfig/symbol.c: chains of symbols in 9973 buckets. */
module SymbolHashes {
  import opened Exprs

  const HASH_SIZE: int := 9973

  /** The flag a symbol is created with: none, SYMBOL_CONST or SYMBOL_CHOICE. */
  datatype Kind = Ordinary | Constant | ChoiceStart

  /** A name and the kind asked for. */
  type Key = (string, Kind)

  /** `*s` where char is signed, converted to unsigned. */
  function CharBits(c: char): bv32 {
    var b := (c as int % 256) as bv32;
    if b < 128 then b else b | 0xFFFFFF00
  }

  function Mix(hash: bv32, c: char): bv32 {
    (hash ^ CharBits(c)) * 0x01000193
  }

  function Fnv32(hash: bv32, s: string): bv32
    decreases |s|
  {
    if s == [] then hash else Fnv32(Mix(hash, s[0]), s[1..])
  }

  /** The bucket of a name. */
  function Bucket(name: string): (b: nat)
    ensures b < HASH_SIZE
  {
    (Fnv32(2166136261, name) as int) % HASH_SIZE
  }

  /** strhash */
  method StrHash(s: string) returns (hash: bv32)
    ensures hash == Fnv32(2166136261, s)
  {
    hide Mix;
    hash := 2166136261;
    var i := 0;
    assert s[0..] == s;
    while i < |s|
      invariant 0 <= i <= |s|
      invariant Fnv32(hash, s[i..]) == Fnv32(2166136261, s)
    {
      assert s[i..][0] == s[i] && s[i..][1..] == s[i + 1..];
      hash := Mix(hash, s[i]);
      i := i + 1;
    }
    assert s[i..] == [];
  }

  /** `struct symbol`, as far as the table looks at it. A symbol is linked once, when it is created. */
  class Node {
    const name: Option<string>
    const kind: Kind
    const next: Node?
    /** The symbols behind this one. */
    ghost const behind: seq<Node>

    constructor (name: Option<string>, kind: Kind, next: Node?)
      ensures this.name == name && this.kind == kind && this.next == next
      ensures behind == if next == null then [] else [next] + next.behind
    {
      this.name, this.kind, this.next := name, kind, next;
      behind := if next == null then [] else [next] + next.behind;
    }
  }

  ghost function ChainOf(n: Node?): seq<Node> {
    if n == null then [] else [n] + n.behind
  }

  ghost predicate Linked(chain: seq<Node>) {
    forall i :: 0 <= i < |chain| ==> chain[i].behind == chain[i + 1..] && ChainOf(chain[i].next) == chain[i + 1..]
  }

  /** The symbol a lookup of this name and kind finds. */
  predicate Matches(n: Node, name: string, kind: Kind) {
    n.name == Some(name) && n.kind == kind
  }

  /** y, m and n are not in the table. */
  predicate IsSpecial(name: string) {
    name == "y" || name == "m" || name == "n"
  }

  class SymbolHash {
    const symbolYes: Node
    const symbolMod: Node
    const symbolNo: Node
    const buckets: array<Node?>

    /** What the table means. */
    ghost var contents: map<Key, Node>
    /** All symbols in it, in the order of their creation. */
    ghost var created: seq<Node>

    constructor ()
      ensures Valid() && contents == map[] && created == [] && fresh(buckets)
    {
      symbolYes := new Node(Some("y"), Constant, null);
      symbolMod := new Node(Some("m"), Constant, null);
      symbolNo := new Node(Some("n"), Constant, null);
      buckets := new Node?[HASH_SIZE](_ => null);
      contents, created := map[], [];
    }

    /** The chain in a bucket. */
    ghost function Chain(b: nat): seq<Node>
      reads this, buckets
      requires b < buckets.Length
    {
      ChainOf(buckets[b])
    }

    /** Every named symbol is in the bucket of its name, under its name and kind, exactly once; and
        a chain holds the symbols of its bucket, the newest first. */
    ghost predicate Valid()
      reads this, buckets
    {
      && buckets.Length == HASH_SIZE
      && (forall b :: 0 <= b < HASH_SIZE ==> Linked(Chain(b)) && Chain(b) == InBucket(created, b))
      && (forall k :: k in contents ==> contents[k] in created && Matches(contents[k], k.0, k.1) && !IsSpecial(k.0))
      && (forall n :: n in created && n.name.Some? ==>
            (n.name.value, n.kind) in contents && contents[(n.name.value, n.kind)] == n)
    }

    ghost function Special(name: string): Node {
      if name == "y" then symbolYes else if name == "m" then symbolMod else symbolNo
    }

    /** sym_lookup: the symbol of this name and kind, created if there is none. Without a name a new
        symbol is created every time. */
    method Lookup(name: Option<string>, kind: Kind) returns (r: Node)
      requires Valid()
      modifies this, buckets
      ensures Valid()
      ensures name.Some? && IsSpecial(name.value) ==> r == Special(name.value)
      ensures name.Some? && !IsSpecial(name.value) && (name.value, kind) in old(contents) ==>
              r == old(contents)[(name.value, kind)]
      ensures if name.Some? && (IsSpecial(name.value) || (name.value, kind) in old(contents))
              then contents == old(contents) && created == old(created)
              else fresh(r) && r.name == name && r.kind == kind && created == old(created) + [r]
                   && contents == if name.Some? then old(contents)[(name.value, kind) := r] else old(contents)
    {
      var hash := 0;
      if name.Some? {
        if |name.value| == 1 {
          match name.value[0] {
            case 'y' => return symbolYes;
            case 'm' => return symbolMod;
            case 'n' => return symbolNo;
            case _ =>
          }
        }
        var h := StrHash(name.value);
        hash := (h as int) % HASH_SIZE;
        var symbol := FindInChain(hash, name.value, kind);
        if symbol != null {
          return symbol;
        }
      }
      r := Prepend(name, kind, hash);
    }

    /** The loop of sym_lookup over a chain. */
    method FindInChain(hash: nat, name: string, kind: Kind) returns (symbol: Node?)
      requires Valid() && hash == Bucket(name) && !IsSpecial(name)
      ensures if (name, kind) in contents then symbol == contents[(name, kind)] else symbol == null
    {
      hide Bucket, InBucket;
      ghost var chain := Chain(hash);
      ghost var i := 0;
      assert chain[0..] == chain;
      symbol := buckets[hash];
      while symbol != null && !(symbol.name == Some(name) && symbol.kind == kind)
        invariant 0 <= i <= |chain| && ChainOf(symbol) == chain[i..]
        invariant forall j :: 0 <= j < i ==> !Matches(chain[j], name, kind)
        decreases |chain| - i
      {
        assert chain[i] == symbol && chain[i..][0] == symbol;
        symbol := symbol.next;
        i := i + 1;
      }
      FoundInChain(hash, name, kind, chain, i, symbol);
    }

    lemma FoundInChain(hash: nat, name: string, kind: Kind, chain: seq<Node>, i: nat, symbol: Node?)
      requires Valid() && hash == Bucket(name) && chain == Chain(hash) && i <= |chain| && ChainOf(symbol) == chain[i..]
      requires forall j :: 0 <= j < i ==> !Matches(chain[j], name, kind)
      requires symbol != null ==> Matches(symbol, name, kind)
      ensures if (name, kind) in contents then symbol == contents[(name, kind)] else symbol == null
    {
      if symbol != null {
        assert chain[i..][0] == symbol && chain[i] in chain;
        InBucketOnly(created, hash, symbol);
      } else if (name, kind) in contents {
        var n := contents[(name, kind)];
        InBucketHas(created, n);
      }
    }

    /** A new symbol at the head of a chain. */
    method Prepend(name: Option<string>, kind: Kind, hash: nat) returns (r: Node)
      requires Valid() && hash == (if name.Some? then Bucket(name.value) else 0) && hash < HASH_SIZE
      requires name.Some? ==> !IsSpecial(name.value) && (name.value, kind) !in contents
      modifies this, buckets
      ensures Valid() && fresh(r) && r.name == name && r.kind == kind && created == old(created) + [r]
      ensures contents == if name.Some? then old(contents)[(name.value, kind) := r] else old(contents)
    {
      hide Bucket, InBucket, Linked;
      ghost var before, head := created, buckets[hash];
      assert Linked(ChainOf(head)) && ChainOf(head) == InBucket(before, hash) by {
        assert Chain(hash) == ChainOf(head);
      }
      r := new Node(name, kind, buckets[hash]);
      LinkedGrows(r, ChainOf(head));
      BucketsGrow(before, r);
      buckets[hash] := r;
      created := created + [r];
      if name.Some? {
        contents := contents[(name.value, kind) := r];
      }
      assert BucketOf(r) == hash && Chain(hash) == [r] + ChainOf(head);
      forall b | 0 <= b < HASH_SIZE ensures Linked(Chain(b)) && Chain(b) == InBucket(created, b) {
        assert b != hash ==> Chain(b) == old(Chain(b));
      }
    }

    /** What sym_find finds is the ordinary symbol of that name or the choice, whichever there is. */
    lemma FoundMeans(name: string)
      requires Valid()
      ensures var r := Newest(created, name);
              && (r == null <==> (name, Ordinary) !in contents && (name, ChoiceStart) !in contents)
              && (r != null ==> (name, r.kind) in contents && contents[(name, r.kind)] == r && !r.kind.Constant?)
    {
      NewestHasName(created, name);
      if (name, Ordinary) in contents {
        assert Named(contents[(name, Ordinary)], name);
      }
      if (name, ChoiceStart) in contents {
        assert Named(contents[(name, ChoiceStart)], name);
      }
    }

    /** Looking up any sequence of names: two lookups give the same symbol exactly when they ask for the
        same name and kind, whatever is inserted in between. */
    method LookupAll(keys: seq<Key>) returns (symbols: seq<Node>)
      requires Valid()
      modifies this, buckets
      ensures Valid() && |symbols| == |keys|
      ensures forall i, j :: 0 <= i < |keys| && 0 <= j < |keys| && !IsSpecial(keys[i].0) && !IsSpecial(keys[j].0) ==>
                (symbols[i] == symbols[j] <==> keys[i] == keys[j])
      ensures forall k :: k in old(contents) ==> k in contents && contents[k] == old(contents)[k]
    {
      symbols := [];
      for i := 0 to |keys|
        invariant Valid() && |symbols| == i
        invariant forall j :: 0 <= j < i && !IsSpecial(keys[j].0) ==>
                  keys[j] in contents && symbols[j] == contents[keys[j]]
        invariant forall k :: k in old(contents) ==> k in contents && contents[k] == old(contents)[k]
      {
        hide Valid, Matches, Linked;
        var symbol := Lookup(Some(keys[i].0), keys[i].1);
        symbols := symbols + [symbol];
      }
    }

    /** sym_find: the newest symbol of this name that is no constant. */
    method Find(name: Option<string>) returns (r: Node?)
      requires Valid()
      ensures name == None ==> r == null
      ensures name.Some? && IsSpecial(name.value) ==> r == Special(name.value)
      ensures name.Some? && !IsSpecial(name.value) ==> r == Newest(created, name.value)
    {
      if name == None {
        return null;
      }
      if |name.value| == 1 {
        match name.value[0] {
          case 'y' => return symbolYes;
          case 'm' => return symbolMod;
          case 'n' => return symbolNo;
          case _ =>
        }
      }
      var h := StrHash(name.value);
      var hash := (h as int) % HASH_SIZE;
      ghost var chain := Chain(hash);
      ghost var i := 0;
      assert chain[0..] == chain;
      r := buckets[hash];
      while r != null && !(r.name == name && !r.kind.Constant?)
        invariant 0 <= i <= |chain| && ChainOf(r) == chain[i..]
        invariant FirstNamed(chain[i..], name.value) == FirstNamed(chain, name.value)
        decreases |chain| - i
      {
        assert chain[i] == r && chain[i..][0] == r && chain[i..][1..] == chain[i + 1..];
        r := r.next;
        i := i + 1;
      }
      NewestIsFirst(created, name.value);
    }
  }

  lemma LinkedGrows(n: Node, chain: seq<Node>)
    requires Linked(chain) && ChainOf(n.next) == chain && n.behind == chain
    ensures Linked([n] + chain)
  {
    var more := [n] + chain;
    forall i | 0 <= i < |more| ensures more[i].behind == more[i + 1..] && ChainOf(more[i].next) == more[i + 1..] {
      if i > 0 {
        assert more[i + 1..] == chain[i..];
      } else {
        assert more[1..] == chain;
      }
    }
  }

  lemma BucketsGrow(created: seq<Node>, n: Node)
    ensures forall b :: InBucket(created + [n], b)
                     == if BucketOf(n) == b then [n] + InBucket(created, b) else InBucket(created, b)
  {
    assert (created + [n])[..|created|] == created;
  }

  lemma {:induction false} NewestHasName(created: seq<Node>, name: string)
    ensures var r := Newest(created, name);
            if r == null then forall n :: n in created ==> !Named(n, name) else r in created && Named(r, name)
  {
    if created != [] {
      NewestHasName(created[..|created| - 1], name);
    }
  }

  predicate Named(n: Node, name: string) {
    n.name == Some(name) && !n.kind.Constant?
  }

  /** The last of these symbols with this name that is no constant. */
  ghost function Newest(created: seq<Node>, name: string): Node? {
    if created == [] then null
    else if Named(created[|created| - 1], name) then created[|created| - 1]
    else Newest(created[..|created| - 1], name)
  }

  ghost function FirstNamed(chain: seq<Node>, name: string): Node? {
    if chain == [] then null else if Named(chain[0], name) then chain[0] else FirstNamed(chain[1..], name)
  }

  /** The first symbol with this name in its bucket is the newest one. */
  lemma {:induction false} NewestIsFirst(created: seq<Node>, name: string)
    ensures FirstNamed(InBucket(created, Bucket(name)), name) == Newest(created, name)
  {
    hide Bucket;
    if created != [] {
      var older, n := created[..|created| - 1], created[|created| - 1];
      NewestIsFirst(older, name);
      if BucketOf(n) == Bucket(name) {
        assert ([n] + InBucket(older, Bucket(name)))[1..] == InBucket(older, Bucket(name));
      } else {
        assert [] + InBucket(older, Bucket(name)) == InBucket(older, Bucket(name));
      }
    }
  }

  /** The bucket a symbol is linked into. */
  function BucketOf(n: Node): nat {
    if n.name.Some? then Bucket(n.name.value) else 0
  }

  /** The symbols of a bucket, the newest first. */
  ghost function InBucket(created: seq<Node>, b: nat): seq<Node> {
    if created == [] then []
    else
      var (older, n) := (created[..|created| - 1], created[|created| - 1]);
      (if BucketOf(n) == b then [n] else []) + InBucket(older, b)
  }

  lemma {:induction false} InBucketHas(created: seq<Node>, n: Node)
    requires n in created
    ensures n in InBucket(created, BucketOf(n))
  {
    var older, last := created[..|created| - 1], created[|created| - 1];
    if n != last {
      InBucketHas(older, n);
    }
  }

  lemma {:induction false} InBucketOnly(created: seq<Node>, b: nat, n: Node)
    requires n in InBucket(created, b)
    ensures n in created && BucketOf(n) == b
  {
    var older, last := created[..|created| - 1], created[|created| - 1];
    if n in InBucket(older, b) {
      InBucketOnly(older, b, n);
    }
  }
}
