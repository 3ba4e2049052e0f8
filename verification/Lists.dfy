/** Looking through a list in order. */
module Lists {
  import opened Options

  /** The first position that satisfies `p`. */
  function FirstAt<T>(s: seq<T>, p: T -> bool): (r: Option<nat>)
    ensures r.Some? ==> r.value < |s| && p(s[r.value]) && forall i :: 0 <= i < r.value ==> !p(s[i])
    ensures r.None? ==> forall i :: 0 <= i < |s| ==> !p(s[i])
  {
    if s == [] then None
    else
      var n := |s| - 1;
      var before := FirstAt(s[..n], p);
      if before.Some? then before else if p(s[n]) then Some(n) else None
  }

  /** The list without its `k`-th element. */
  function Remove<T>(s: seq<T>, k: nat): seq<T>
    requires k < |s|
  {
    s[..k] + s[k + 1..]
  }

  /** The elements that satisfy `p`, in order. */
  function Where<T>(s: seq<T>, p: T -> bool): seq<T> {
    if s == [] then [] else Where(s[..|s| - 1], p) + if p(s[|s| - 1]) then [s[|s| - 1]] else []
  }

  lemma {:induction false} WhereHolds<T(!new)>(s: seq<T>, p: T -> bool)
    ensures forall x :: x in Where(s, p) <==> x in s && p(x)
  {
    if s == [] {
    } else {
      var n := |s| - 1;
      WhereHolds(s[..n], p);
      assert s == s[..n] + [s[n]];
    }
  }

  lemma {:induction false} WhereAll<T>(s: seq<T>, p: T -> bool)
    requires forall i :: 0 <= i < |s| ==> p(s[i])
    ensures Where(s, p) == s
  {
    if s == [] {
    } else {
      WhereAll(s[..|s| - 1], p);
    }
  }

  lemma {:induction false} WhereNone<T>(s: seq<T>, p: T -> bool)
    requires forall i :: 0 <= i < |s| ==> !p(s[i])
    ensures Where(s, p) == []
  {
    if s == [] {
    } else {
      WhereNone(s[..|s| - 1], p);
    }
  }

  lemma {:induction false} WhereLone<T>(s: seq<T>, p: T -> bool, i: nat)
    requires i < |s| && p(s[i]) && forall j :: 0 <= j < |s| && j != i ==> !p(s[j])
    ensures Where(s, p) == [s[i]]
  {
    var n := |s| - 1;
    if i < n {
      WhereLone(s[..n], p, i);
    } else {
      WhereNone(s[..n], p);
    }
  }

  lemma {:induction false} WherePair<T(!new)>(s: seq<T>, p: T -> bool, i: nat, j: nat)
    requires i < j < |s| && p(s[i]) && p(s[j])
    ensures |Where(s, p)| > 1
  {
    var n := |s| - 1;
    if j < n {
      WherePair(s[..n], p, i, j);
    } else {
      WhereHolds(s[..n], p);
      assert s[..n][i] == s[i];
    }
  }
}
