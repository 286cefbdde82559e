/** The order in which the relational store hands back the rows of a table
    that is read without an ORDER BY clause: by ascending primary key. */
module OrderedKeys {

  predicate StrictlyAscending(s: seq<int>) {
    forall i, j :: 0 <= i < j < |s| ==> s[i] < s[j]
  }

  lemma {:induction false} MinExists(s: set<int>)
    requires s != {}
    ensures exists m :: m in s && forall x :: x in s ==> m <= x
  {
    assert exists y :: y in s by {
      if forall y :: y !in s {
        assert false;
      }
    }
    var y :| y in s;
    if s == {y} {
      assert forall x :: x in s ==> y <= x;
    } else {
      MinExists(s - {y});
      var m :| m in s - {y} && forall x :: x in s - {y} ==> m <= x;
      var least := if y < m then y else m;
      forall x | x in s
        ensures least <= x
      {
        if x != y {
          assert x in s - {y};
        }
      }
      assert least in s;
    }
  }

  lemma ConsAscending(m: int, rest: seq<int>)
    requires StrictlyAscending(rest)
    requires forall i :: 0 <= i < |rest| ==> m < rest[i]
    ensures StrictlyAscending([m] + rest)
  {
    var r := [m] + rest;
    forall i, j | 0 <= i < j < |r| ensures r[i] < r[j] {
      assert r[j] == rest[j - 1];
      if i > 0 {
        assert r[i] == rest[i - 1];
      }
    }
  }

  /** The least key of a non-empty set of keys. */
  function Min(s: set<int>): (m: int)
    requires s != {}
    ensures m in s
    ensures forall x :: x in s ==> m <= x
  {
    MinExists(s);
    var m :| m in s && forall x :: x in s ==> m <= x;
    m
  }

  /** `r` lists the keys `s` in scan order: every key exactly once, ascending. */
  predicate Enumerates(r: seq<int>, s: set<int>) {
    && |r| == |s|
    && (forall i :: 0 <= i < |r| ==> r[i] in s)
    && (forall x :: x in s ==> x in r)
    && StrictlyAscending(r)
  }

  lemma {:induction false} EnumerationExists(s: set<int>)
    ensures exists r :: Enumerates(r, s)
    decreases |s|
  {
    if s == {} {
      assert Enumerates([], s);
    } else {
      var m := Min(s);
      EnumerationExists(s - {m});
      var rest :| Enumerates(rest, s - {m});
      ConsAscending(m, rest);
      assert forall x :: x in s ==> x == m || x in s - {m};
      assert Enumerates([m] + rest, s);
    }
  }

  lemma TailEnumerates(a: seq<int>, s: set<int>)
    requires Enumerates(a, s) && s != {}
    ensures Enumerates(a[1..], s - {a[0]})
  {
    var t := s - {a[0]};
    var tail := a[1..];
    forall i | 0 <= i < |tail| ensures tail[i] in t {
      assert a[0] < a[i + 1];
    }
    forall x | x in t ensures x in tail {
      var i :| 0 <= i < |a| && a[i] == x;
      assert tail[i - 1] == x;
    }
    forall i, j | 0 <= i < j < |tail| ensures tail[i] < tail[j] {
      assert tail[i] == a[i + 1] && tail[j] == a[j + 1];
    }
  }

  /** Two ascending listings of the same keys are the same listing. */
  lemma {:induction false} EnumerationUnique(a: seq<int>, b: seq<int>, s: set<int>)
    requires Enumerates(a, s) && Enumerates(b, s)
    ensures a == b
    decreases |s|
  {
    if s != {} {
      assert a[0] == b[0] by {
        assert a[0] in s && b[0] in s;
        var i :| 0 <= i < |a| && a[i] == b[0];
        var j :| 0 <= j < |b| && b[j] == a[0];
        assert a[0] <= a[i] && b[0] <= b[j];
      }
      TailEnumerates(a, s);
      TailEnumerates(b, s);
      EnumerationUnique(a[1..], b[1..], s - {a[0]});
      assert a == [a[0]] + a[1..] && b == [b[0]] + b[1..];
    }
  }

  /** The keys of a table in scan order. */
  function SortedIds(s: set<int>): (r: seq<int>)
    ensures Enumerates(r, s)
  {
    EnumerationExists(s);
    assert forall a, b :: Enumerates(a, s) && Enumerates(b, s) ==> a == b by {
      forall a, b | Enumerates(a, s) && Enumerates(b, s) ensures a == b {
        EnumerationUnique(a, b, s);
      }
    }
    var r :| Enumerates(r, s);
    r
  }

  /** The rows of a table in scan order: the value under each key, keys
      ascending, each row exactly once. */
  function ValuesInKeyOrder<V>(m: map<int, V>): (vs: seq<V>)
    ensures |vs| == |m|
    ensures forall i :: 0 <= i < |vs| ==> SortedIds(m.Keys)[i] in m && vs[i] == m[SortedIds(m.Keys)[i]]
    ensures forall k :: k in m ==> m[k] in vs
  {
    var ids := SortedIds(m.Keys);
    var vs := seq(|ids|, i requires 0 <= i < |ids| => m[ids[i]]);
    assert forall k :: k in m ==> m[k] in vs by {
      forall k | k in m ensures m[k] in vs {
        var i :| 0 <= i < |ids| && ids[i] == k;
        assert vs[i] == m[k];
      }
    }
    vs
  }
}
