/** Small definitions shared by the other modules. */
module Common {

  datatype Option<+T> = None | Some(value: T)

  function Min(a: nat, b: nat): nat {
    if a < b then a else b
  }

  function Max(a: nat, b: nat): nat {
    if a < b then b else a
  }

  lemma {:induction false} LeastExists(s: set<nat>, x: nat)
    requires x in s
    ensures exists m :: m in s && forall y :: y in s ==> m <= y
    decreases x
  {
    if y :| y in s && y < x {
      LeastExists(s, y);
    }
  }

  lemma {:induction false} GreatestExists(s: set<nat>, x: nat, bound: nat)
    requires x in s && forall y :: y in s ==> y < bound
    ensures exists m :: m in s && forall y :: y in s ==> y <= m
    decreases bound - x
  {
    if y :| y in s && x < y {
      GreatestExists(s, y, bound);
    }
  }
}
