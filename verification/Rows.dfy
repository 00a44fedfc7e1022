/** What the queries of the stores share: the smallest keys of a set, and the id of a new row. */
module Rows {
  import opened Common

  function Least(s: set<nat>): (m: nat)
    requires s != {}
    ensures m in s && forall h :: h in s ==> m <= h
  {
    LeastExists(s);
    var m :| m in s && forall h :: h in s ==> m <= h;
    m
  }

  lemma {:induction false} LeastExists(s: set<nat>)
    requires s != {}
    ensures exists m :: m in s && forall h :: h in s ==> m <= h
  {
    var x :| x in s;
    var rest := s - {x};
    if rest != {} {
      LeastExists(rest);
      var m :| m in rest && forall h :: h in rest ==> m <= h;
      assert forall h :: h in s ==> h == x || h in rest;
      assert Min(x, m) in s && forall h :: h in s ==> Min(x, m) <= h;
    } else {
      assert forall h :: h in s ==> h == x || h in rest;
    }
  }

  /** ORDER BY key LIMIT n: the n smallest keys. */
  function FirstOf(s: set<nat>, n: nat): (r: set<nat>)
    ensures r <= s
    decreases n
  {
    if n == 0 || s == {} then {} else {Least(s)} + FirstOf(s - {Least(s)}, n - 1)
  }

  lemma {:induction false} FirstOfSize(s: set<nat>, n: nat)
    ensures |FirstOf(s, n)| == Min(n, |s|)
    decreases n
  {
    if n > 0 && s != {} {
      var m := Least(s);
      FirstOfSize(s - {m}, n - 1);
      assert m !in FirstOf(s - {m}, n - 1);
    }
  }

  lemma {:induction false} FirstOfIsSmallest(s: set<nat>, n: nat)
    ensures forall g, h :: g in FirstOf(s, n) && h in s && h !in FirstOf(s, n) ==> g < h
    decreases n
  {
    if n > 0 && s != {} {
      var m := Least(s);
      FirstOfIsSmallest(s - {m}, n - 1);
      forall g, h | g in FirstOf(s, n) && h in s && h !in FirstOf(s, n)
        ensures g < h
      {
        assert m <= h && h in s - {m} && h !in FirstOf(s - {m}, n - 1);
      }
    }
  }

  function Below(s: set<nat>, h: nat): set<nat> {
    set g | g in s && g < h
  }

  /** A key is among the first n exactly if fewer than n keys are below it. */
  lemma {:induction false} FirstOfRank(s: set<nat>, n: nat, h: nat)
    requires h in s
    ensures h in FirstOf(s, n) <==> |Below(s, h)| < n
    decreases n
  {
    if n > 0 {
      var m := Least(s);
      var rest := s - {m};
      if h == m {
        assert Below(s, h) == {};
      } else {
        FirstOfRank(rest, n - 1, h);
        assert Below(s, h) == {m} + Below(rest, h);
        assert m !in Below(rest, h);
      }
    }
  }

  /** A limit that is not reached is no limit. */
  lemma FirstOfAll(s: set<nat>, n: nat)
    requires |s| <= n
    ensures FirstOf(s, n) == s
  {
    FirstOfSize(s, n);
    var rest := s - FirstOf(s, n);
    assert |rest| == |s| - |FirstOf(s, n)|;
    assert rest == {};
  }

  /** SQLite gives a new row the id after the largest one in the table. */
  function Greatest(s: set<nat>): (m: nat)
    ensures forall x :: x in s ==> x <= m
    ensures s == {} ==> m == 0
    ensures s != {} ==> m in s
  {
    if s == {} then 0
    else
      GreatestExists(s);
      var m :| m in s && forall x :: x in s ==> x <= m;
      m
  }

  lemma {:induction false} GreatestExists(s: set<nat>)
    requires s != {}
    ensures exists m :: m in s && forall x :: x in s ==> x <= m
  {
    var x :| x in s;
    var rest := s - {x};
    assert forall y :: y in s ==> y == x || y in rest;
    if rest != {} {
      GreatestExists(rest);
      var m :| m in rest && forall y :: y in rest ==> y <= m;
      assert m in s;
      if m < x {
        assert forall y :: y in s ==> y <= x;
      }
    }
  }
}
