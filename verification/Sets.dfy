/** Least elements of finite sets of integers: sorting and taking the first. */
module Sets {

  lemma Inhabited(s: set<int>)
    requires s != {}
    ensures exists x :: x in s
  {
    assert (forall x :: x !in s) ==> s == {};
  }

  lemma {:induction false} LeastExists(s: set<int>) returns (m: int)
    requires s != {}
    ensures m in s && forall x :: x in s ==> m <= x
    decreases s
  {
    Inhabited(s);
    m :| m in s;
    var rest := s - {m};
    if rest != {} {
      var n := LeastExists(rest);
      forall x | x in s ensures x == m || x in rest {
      }
      if n < m {
        m := n;
      }
    } else {
      forall x | x in s ensures x == m {
        assert x !in rest;
      }
    }
  }

  function Least(s: set<int>): (m: int)
    requires s != {}
    ensures m in s && forall x :: x in s ==> m <= x
  {
    assert exists m :: m in s && forall x :: x in s ==> m <= x by { var m := LeastExists(s); }
    var m :| m in s && forall x :: x in s ==> m <= x;
    m
  }

  function LeastIndex(s: set<nat>): (m: nat)
    requires s != {}
    ensures m in s && forall x :: x in s ==> m <= x
  {
    Least(s)
  }
}
