/** Splitting a path string into segments, as Python's `str.split(sep)` does,
    with the separator fixed to '/'. A split always yields at least one segment;
    a leading, trailing or repeated separator yields empty segments. */
module Paths {

  const Sep: char := '/'

  /** A path inside the tree: the sequence of names walked from the root. */
  type Path = seq<string>

  /** The split of the suffix `s[i..]`, read from position `i` on: a
      separator closes the current piece, any other character extends it. */
  function SplitFrom(s: string, i: nat): (r: seq<string>)
    requires i <= |s|
    ensures |r| >= 1
    decreases |s| - i
  {
    if i == |s| then [""]
    else if s[i] == Sep then [""] + SplitFrom(s, i + 1)
    else
      var t := SplitFrom(s, i + 1);
      [[s[i]] + t[0]] + t[1..]
  }

  /** `s.split('/')`: the pieces of `s` between separators, in order. */
  function Split(s: string): (r: seq<string>)
    ensures |r| >= 1
  {
    SplitFrom(s, 0)
  }

  /** `'/'.join(parts)`: the inverse of `Split`. */
  function Join(parts: seq<string>): (s: string)
    requires |parts| >= 1
    decreases |parts|
  {
    if |parts| == 1 then parts[0] else parts[0] + [Sep] + Join(parts[1..])
  }

  /** The segments a walk actually follows: `parts` with every empty segment dropped. */
  function NonEmpty(parts: seq<string>): (r: Path)
    ensures |r| <= |parts|
    decreases |parts|
  {
    if parts == [] then []
    else if parts[0] == "" then NonEmpty(parts[1..])
    else [parts[0]] + NonEmpty(parts[1..])
  }

  /** A single segment is walked unless it is empty. */
  lemma NonEmptySingle(x: string)
    ensures NonEmpty([x]) == if x == "" then [] else [x]
  {
    assert [x][1..] == [];
  }

  /** The walk is empty exactly when every segment is empty. */
  lemma {:induction false} NonEmptyIsEmpty(parts: seq<string>)
    ensures NonEmpty(parts) == [] <==> forall i :: 0 <= i < |parts| ==> parts[i] == ""
    decreases |parts|
  {
    if parts != [] {
      NonEmptyIsEmpty(parts[1..]);
      assert forall i :: 1 <= i < |parts| ==> parts[i] == parts[1..][i - 1];
    }
  }

  /** Dropping empty segments commutes with concatenation. */
  lemma {:induction false} NonEmptyAppend(a: seq<string>, b: seq<string>)
    ensures NonEmpty(a + b) == NonEmpty(a) + NonEmpty(b)
    decreases |a|
  {
    if a == [] {
      assert a + b == b;
    } else {
      assert (a + b)[1..] == a[1..] + b;
      NonEmptyAppend(a[1..], b);
    }
  }

  /** One more segment extends the walk by that segment, unless it is empty. */
  lemma NonEmptyStep(parts: seq<string>, i: nat)
    requires i < |parts|
    ensures NonEmpty(parts[..i + 1]) == NonEmpty(parts[..i]) + (if parts[i] == "" then [] else [parts[i]])
  {
    assert parts[..i + 1] == parts[..i] + [parts[i]];
    NonEmptyAppend(parts[..i], [parts[i]]);
  }

  /** No piece of a split holds the separator. */
  lemma {:induction false} SplitFromHasNoSep(s: string, i: nat)
    requires i <= |s|
    ensures forall k :: 0 <= k < |SplitFrom(s, i)| ==> Sep !in SplitFrom(s, i)[k]
    decreases |s| - i
  {
    if i < |s| {
      SplitFromHasNoSep(s, i + 1);
    }
  }

  /** No piece of `s.split('/')` holds the separator. */
  lemma SplitHasNoSep(s: string)
    ensures forall k :: 0 <= k < |Split(s)| ==> Sep !in Split(s)[k]
  {
    SplitFromHasNoSep(s, 0);
  }

  /** A string without a separator splits into itself alone. */
  lemma {:induction false} SplitFromNoSep(w: string, i: nat)
    requires i <= |w| && Sep !in w
    ensures SplitFrom(w, i) == [w[i..]]
    decreases |w| - i
  {
    if i < |w| {
      SplitFromNoSep(w, i + 1);
      assert w[i] in w;
      var t := SplitFrom(w, i + 1);
      assert t[1..] == [];
      assert w[i..] == [w[i]] + w[i + 1..];
    } else {
      assert w[i..] == "";
    }
  }

  /** The split of `b` read inside `a + b` is the split of `b` alone. */
  lemma {:induction false} SplitFromShift(a: string, b: string, j: nat)
    requires j <= |b|
    ensures SplitFrom(a + b, |a| + j) == SplitFrom(b, j)
    decreases |b| - j
  {
    if j < |b| {
      assert (a + b)[|a| + j] == b[j];
      SplitFromShift(a, b, j + 1);
    }
  }

  /** Extending the first piece, or starting a new one, commutes with
      appending further pieces. */
  lemma PiecesAppend(c: char, u: seq<string>, v: seq<string>)
    requires |u| >= 1
    ensures [[c] + (u + v)[0]] + (u + v)[1..] == ([[c] + u[0]] + u[1..]) + v
    ensures [""] + (u + v) == ([""] + u) + v
  {
    assert (u + v)[0] == u[0] && (u + v)[1..] == u[1..] + v;
  }

  lemma {:induction false} SplitFromConcat(x: string, y: string, i: nat)
    requires i <= |x|
    ensures SplitFrom(x + [Sep] + y, i) == SplitFrom(x, i) + Split(y)
    decreases |x| - i
  {
    var s := x + [Sep] + y;
    if i == |x| {
      assert s[i] == Sep;
      SplitFromShift(x + [Sep], y, 0);
    } else {
      assert s[i] == x[i];
      SplitFromConcat(x, y, i + 1);
      PiecesAppend(x[i], SplitFrom(x, i + 1), Split(y));
    }
  }

  /** A separator between two strings splits them apart and nothing else:
      `(x + '/' + y).split('/') == x.split('/') + y.split('/')`. */
  lemma SplitConcat(x: string, y: string)
    ensures Split(x + [Sep] + y) == Split(x) + Split(y)
  {
    SplitFromConcat(x, y, 0);
  }

  /** Joining after extending the first piece by `c` is prefixing `c`. */
  lemma JoinCons(c: char, t: seq<string>)
    requires |t| >= 1
    ensures Join([[c] + t[0]] + t[1..]) == [c] + Join(t)
  {
    var r := [[c] + t[0]] + t[1..];
    if |t| > 1 {
      assert r[1..] == t[1..];
    }
  }

  lemma {:induction false} JoinSplitFrom(s: string, i: nat)
    requires i <= |s|
    ensures Join(SplitFrom(s, i)) == s[i..]
    decreases |s| - i
  {
    if i < |s| {
      JoinSplitFrom(s, i + 1);
      var t := SplitFrom(s, i + 1);
      assert s[i..] == [s[i]] + s[i + 1..];
      if s[i] == Sep {
        assert ([""] + t)[1..] == t;
      } else {
        JoinCons(s[i], t);
      }
    }
  }

  /** Joining the pieces of a split gives the original string back. */
  lemma JoinSplit(s: string)
    ensures Join(Split(s)) == s
  {
    JoinSplitFrom(s, 0);
  }

  /** Splitting a join of separator-free pieces gives the pieces back. */
  lemma {:induction false} SplitJoin(parts: seq<string>)
    requires |parts| >= 1
    requires forall i :: 0 <= i < |parts| ==> Sep !in parts[i]
    ensures Split(Join(parts)) == parts
    decreases |parts|
  {
    SplitFromNoSep(parts[0], 0);
    if |parts| > 1 {
      SplitJoin(parts[1..]);
      SplitConcat(parts[0], Join(parts[1..]));
      assert parts == [parts[0]] + parts[1..];
    }
  }

  /** A leading separator only adds an empty first segment. */
  lemma LeadingSep(y: string)
    ensures Split([Sep] + y) == [""] + Split(y)
  {
    SplitConcat("", y);
    assert "" + [Sep] + y == [Sep] + y;
  }

  /** Doubling a separator only adds an empty segment between its neighbours. */
  lemma DoubledSep(x: string, y: string)
    ensures Split(x + [Sep, Sep] + y) == Split(x) + [""] + Split(y)
  {
    SplitConcat(x, [Sep] + y);
    LeadingSep(y);
    assert x + [Sep, Sep] + y == x + [Sep] + ([Sep] + y);
  }
}
