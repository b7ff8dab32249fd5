/** Finite sets of integers in ascending order. */
module IntSets {
  lemma Inhabited(s: set<int>)
    ensures s == {} || exists d :: d in s
  {
    if forall d :: d !in s {
      assert s == {};
    }
  }

  lemma {:induction false} HasLeast(s: set<int>)
    requires s != {}
    ensures exists d :: d in s && forall e | e in s :: d <= e
  {
    Inhabited(s);
    var x :| x in s;
    var rest := s - {x};
    if rest == {} {
      assert forall e | e in s :: e == x || e in rest;
    } else {
      HasLeast(rest);
      var y: int :| y in rest && forall e | e in rest :: y <= e;
      assert forall e | e in s :: e == x || e in rest;
      var d := if x <= y then x else y;
      assert d in s && forall e | e in s :: d <= e;
    }
  }

  ghost predicate Ascending(s: seq<int>) { forall i, j | 0 <= i < j < |s| :: s[i] < s[j] }

  method Sorted(s: set<int>) returns (keys: seq<int>)
    ensures Ascending(keys) && forall k :: k in keys <==> k in s
  {
    keys := [];
    var todo := s;
    while todo != {}
      invariant Ascending(keys) && forall k :: k in s <==> k in keys || k in todo
      invariant forall i, k | 0 <= i < |keys| && k in todo :: keys[i] < k
      decreases todo
    {
      HasLeast(todo);
      var d: int :| d in todo && forall e | e in todo :: d <= e;
      keys := keys + [d];
      todo := todo - {d};
    }
  }

  /** A set of integers has one ascending listing. */
  lemma {:induction false} OneListing(a: seq<int>, b: seq<int>)
    requires Ascending(a) && Ascending(b) && forall k :: k in a <==> k in b
    ensures a == b
  {
    assert (a != [] ==> a[0] in a) && (b != [] ==> b[0] in b);
    if a != [] {
      FirstIsLeast(a, b);
      forall k ensures k in a[1..] <==> k in b[1..] {
        InTail(a, k);
        InTail(b, k);
      }
      OneListing(a[1..], b[1..]);
      assert a == [a[0]] + a[1..] && b == [b[0]] + b[1..];
    }
  }

  lemma InTail(s: seq<int>, k: int)
    requires Ascending(s) && s != []
    ensures k in s[1..] <==> k in s && k != s[0]
  {
    assert s == [s[0]] + s[1..];
    if k in s[1..] {
      var i :| 0 <= i < |s[1..]| && s[1..][i] == k;
      assert s[i + 1] == k;
    }
  }

  lemma FirstIsLeast(a: seq<int>, b: seq<int>)
    requires Ascending(a) && Ascending(b) && a != [] && b != [] && forall k :: k in a <==> k in b
    ensures a[0] == b[0]
  {
    assert a[0] in b && b[0] in a;
    var i :| 0 <= i < |b| && b[i] == a[0];
    var j :| 0 <= j < |a| && a[j] == b[0];
  }
}
