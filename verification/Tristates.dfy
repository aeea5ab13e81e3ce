/** The three-valued logic of support/kconfig/expr.h: `no < mod < yes`. */
module Tristates {

  /** `enum tristate`: no, mod and yes are 0, 1 and 2, and the macros compute on these numbers. */
  type Tri = t: int | 0 <= t <= 2

  const NO: Tri := 0
  const MOD: Tri := 1
  const YES: Tri := 2

  function Min(a: Tri, b: Tri): Tri {
    if a < b then a else b
  }

  function Max(a: Tri, b: Tri): Tri {
    if a > b then a else b
  }

  function Negate(a: Tri): Tri {
    2 - a
  }

  function OfBool(b: bool): Tri {
    if b then YES else NO
  }

  /** The letter under which a tristate is written and compared. */
  function Letter(t: Tri): string {
    if t == NO then "n" else if t == MOD then "m" else "y"
  }

  /** Without modules, mod counts as yes. */
  function Promote(t: Tri): Tri {
    if t == MOD then YES else t
  }
}
