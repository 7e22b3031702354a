/** Three-valued logic of the configuration language: n < m < y
    (scripts/config/expr.h). */
module Tristates {

  type Tristate = x: int | 0 <= x <= 2

  const NO: Tristate := 0
  const MOD: Tristate := 1
  const YES: Tristate := 2

  function TriOr(a: Tristate, b: Tristate): Tristate {
    if a > b then a else b
  }

  function TriAnd(a: Tristate, b: Tristate): Tristate {
    if a < b then a else b
  }

  function TriNot(a: Tristate): Tristate {
    2 - a
  }

  function Bool(b: bool): Tristate {
    if b then YES else NO
  }
}
