/** Reading a command-line argument list the way a program that takes
    `-flag value` pairs reads it: where a given word stands, which value the
    first occurrence of a flag carries, and where two lists disagree. */
module ArgList {
  import opened Wrappers

  /** The first position of x in a, or None when x is not there. */
  function IndexOf(a: seq<string>, x: string): Option<nat> {
    if |a| == 0 then None
    else if a[0] == x then Some(0)
    else
      match IndexOf(a[1..], x)
      case None => None
      case Some(i) => Some(i + 1)
  }

  /** The value given to a flag: the word after its first occurrence. */
  function ValueAfter(a: seq<string>, flag: string): Option<string> {
    match IndexOf(a, flag)
    case None => None
    case Some(i) => if i + 1 < |a| then Some(a[i + 1]) else None
  }

  /** Every position at which x stands. */
  function Positions(a: seq<string>, x: string): set<nat> {
    set i: nat | i < |a| && a[i] == x
  }

  /** Every position at which `flag` is immediately followed by `value`. */
  function PairPositions(a: seq<string>, flag: string, value: string): set<nat> {
    set i | i in Positions(a, flag) && i + 1 < |a| && a[i + 1] == value
  }

  /** Every position at which two lists of the same length differ. */
  function Differences(a: seq<string>, b: seq<string>): set<nat>
    requires |a| == |b|
  {
    set i: nat | i < |a| && a[i] != b[i]
  }

  function Shifted(s: set<nat>, n: nat): set<nat> {
    set i | i in s :: i + n
  }

  lemma {:induction false} IndexOfFirst(a: seq<string>, x: string)
    ensures IndexOf(a, x).Some? ==> var i := IndexOf(a, x).value;
      i < |a| && a[i] == x && forall j :: 0 <= j < i ==> a[j] != x
    ensures IndexOf(a, x).None? <==> x !in a
  {
    if |a| > 0 && a[0] != x {
      IndexOfFirst(a[1..], x);
      assert forall j :: 1 <= j < |a| ==> a[j] == a[1..][j - 1];
      assert a == [a[0]] + a[1..];
    }
  }

  lemma IndexOfAppend(s: seq<string>, t: seq<string>, x: string)
    requires x !in s
    ensures IndexOf(s + t, x) == match IndexOf(t, x) case None => None case Some(i) => Some(|s| + i)
  {
    IndexOfFirst(s + t, x);
    IndexOfFirst(t, x);
    var r := IndexOf(s + t, x);
    if r.Some? {
      assert r.value >= |s|;
      assert t[r.value - |s|] == x;
      assert forall j :: 0 <= j < r.value - |s| ==> t[j] == (s + t)[j + |s|];
    } else {
      assert forall j :: 0 <= j < |t| ==> t[j] == (s + t)[j + |s|];
    }
  }

  /** A flag absent from a prefix keeps its value across that prefix. */
  lemma ValueAfterAppend(s: seq<string>, t: seq<string>, flag: string)
    requires flag !in s
    ensures ValueAfter(s + t, flag) == ValueAfter(t, flag)
  {
    IndexOfAppend(s, t, flag);
  }

  /** A flag met first at position k takes the word after it. */
  lemma ValueAfterAt(a: seq<string>, flag: string, k: nat)
    requires k + 1 < |a| && a[k] == flag && flag !in a[..k]
    ensures ValueAfter(a, flag) == Some(a[k + 1])
    ensures IndexOf(a, flag) == Some(k)
  {
    IndexOfFirst(a, flag);
    assert forall j :: 0 <= j < k ==> a[j] == a[..k][j];
  }

  /** Words appended after a flag's value do not change it. */
  lemma ValueAfterExtend(s: seq<string>, t: seq<string>, flag: string)
    requires ValueAfter(s, flag).Some?
    ensures ValueAfter(s + t, flag) == ValueAfter(s, flag)
    ensures IndexOf(s + t, flag) == IndexOf(s, flag)
  {
    IndexOfFirst(s, flag);
    IndexOfFirst(s + t, flag);
    var i := IndexOf(s, flag).value;
    assert (s + t)[i] == flag;
    assert forall j :: 0 <= j < i ==> (s + t)[j] == s[j];
  }

  lemma PositionsAppend(s: seq<string>, t: seq<string>, x: string)
    ensures Positions(s + t, x) == Positions(s, x) + Shifted(Positions(t, x), |s|)
  {
    var l, r := Positions(s + t, x), Positions(s, x) + Shifted(Positions(t, x), |s|);
    forall i | i in l ensures i in r {
      if i >= |s| {
        assert i - |s| in Positions(t, x);
      }
    }
    forall i | i in r ensures i in l {
      if i !in Positions(s, x) {
        var j :| j in Positions(t, x) && i == j + |s|;
        assert (s + t)[i] == t[j];
      }
    }
  }

  lemma PositionsAbsent(a: seq<string>, x: string)
    requires x !in a
    ensures Positions(a, x) == {}
  {
  }

  lemma PositionsHead(a: seq<string>, x: string)
    requires |a| > 0 && a[0] == x && x !in a[1..]
    ensures Positions(a, x) == {0}
  {
  }

  lemma DifferencesAppend(s: seq<string>, t: seq<string>, s': seq<string>, t': seq<string>)
    requires |s| == |s'| && |t| == |t'|
    ensures Differences(s + t, s' + t') == Differences(s, s') + Shifted(Differences(t, t'), |s|)
  {
    var l, r := Differences(s + t, s' + t'), Differences(s, s') + Shifted(Differences(t, t'), |s|);
    forall i | i in l ensures i in r {
      if i >= |s| {
        assert i - |s| in Differences(t, t');
      }
    }
    forall i | i in r ensures i in l {
      if i !in Differences(s, s') {
        var j :| j in Differences(t, t') && i == j + |s|;
        assert (s + t)[i] == t[j] && (s' + t')[i] == t'[j];
      }
    }
  }

  lemma DifferencesSame(a: seq<string>)
    ensures Differences(a, a) == {}
  {
  }

  lemma ShiftedEmpty(n: nat)
    ensures Shifted({}, n) == {}
  {
  }

  lemma ShiftedSingleton(m: nat, n: nat)
    ensures Shifted({m}, n) == {m + n}
  {
    assert m + n in Shifted({m}, n);
  }
}
