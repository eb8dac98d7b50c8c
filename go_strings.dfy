/**
  The two functions of Go's `strings` package that the request handler uses,
  `strings.Trim` and `strings.Split`, for the one-character cutsets and
  separators it passes them ('/', ' ', '\n' and ':'), together with
  `strings.Join`, the inverse of Split, which states what Split returns. All
  of these characters are ASCII, so working on characters instead of UTF-8
  bytes changes nothing.
 */
module GoStrings {

  /** n copies of the character c. */
  function Rep(c: char, n: nat): string
  {
    seq(n, _ => c)
  }

  /** s neither starts nor ends with c: what trimming c leaves behind. */
  predicate Unpadded(s: string, c: char)
  {
    s == [] || (s[0] != c && s[|s| - 1] != c)
  }

  /** strings.TrimLeft(s, cutset) for the one-character cutset c. */
  function TrimLeft(s: string, c: char): (r: string)
    ensures |r| <= |s|
    decreases |s|
  {
    if |s| > 0 && s[0] == c then TrimLeft(s[1..], c) else s
  }

  /** strings.TrimRight(s, cutset) for the one-character cutset c. */
  function TrimRight(s: string, c: char): (r: string)
    ensures |r| <= |s|
    decreases |s|
  {
    if |s| > 0 && s[|s| - 1] == c then TrimRight(s[..|s| - 1], c) else s
  }

  /** TrimLeft removes a run of c from the front, and all of it. */
  lemma {:induction false} TrimLeftShape(s: string, c: char)
    ensures s == Rep(c, |s| - |TrimLeft(s, c)|) + TrimLeft(s, c)
    ensures TrimLeft(s, c) == [] || TrimLeft(s, c)[0] != c
    decreases |s|
  {
    if |s| > 0 && s[0] == c {
      var r := TrimLeft(s[1..], c);
      TrimLeftShape(s[1..], c);
      assert s == [c] + s[1..];
      assert Rep(c, |s| - |r|) == [c] + Rep(c, |s[1..]| - |r|);
    } else {
      assert Rep(c, 0) == [];
    }
  }

  /** TrimRight removes a run of c from the back, and all of it. */
  lemma {:induction false} TrimRightShape(s: string, c: char)
    ensures s == TrimRight(s, c) + Rep(c, |s| - |TrimRight(s, c)|)
    ensures TrimRight(s, c) == [] || TrimRight(s, c)[|TrimRight(s, c)| - 1] != c
    decreases |s|
  {
    if |s| > 0 && s[|s| - 1] == c {
      var r := TrimRight(s[..|s| - 1], c);
      TrimRightShape(s[..|s| - 1], c);
      assert s == s[..|s| - 1] + [c];
      assert Rep(c, |s| - |r|) == Rep(c, |s[..|s| - 1]| - |r|) + [c];
    } else {
      assert Rep(c, 0) == [];
    }
  }

  /** strings.Trim(s, cutset) for the one-character cutset c: every leading
      and every trailing c removed, nothing inside touched. */
  function Trim(s: string, c: char): string
  {
    TrimRight(TrimLeft(s, c), c)
  }

  lemma RepAdd(c: char, m: nat, n: nat)
    ensures Rep(c, m) + Rep(c, n) == Rep(c, m + n)
  {
  }

  /** Leading copies of c are invisible to TrimLeft. */
  lemma {:induction false} TrimLeftPadded(c: char, i: nat, t: string)
    ensures TrimLeft(Rep(c, i) + t, c) == TrimLeft(t, c)
  {
    if i > 0 {
      var s := Rep(c, i) + t;
      assert s[0] == c;
      assert s[1..] == Rep(c, i - 1) + t;
      TrimLeftPadded(c, i - 1, t);
    } else {
      assert Rep(c, i) + t == t;
    }
  }

  /** Trailing copies of c are invisible to TrimRight. */
  lemma {:induction false} TrimRightPadded(c: char, t: string, j: nat)
    ensures TrimRight(t + Rep(c, j), c) == TrimRight(t, c)
  {
    if j > 0 {
      var s := t + Rep(c, j);
      assert s[|s| - 1] == c;
      assert s[..|s| - 1] == t + Rep(c, j - 1);
      TrimRightPadded(c, t, j - 1);
    } else {
      assert t + Rep(c, j) == t;
    }
  }

  /** Trim undoes padding: a string that neither starts nor ends with c comes
      back unchanged from any number of copies of c on either side. */
  lemma TrimOfPadded(c: char, i: nat, r: string, j: nat)
    requires Unpadded(r, c)
    ensures Trim(Rep(c, i) + r + Rep(c, j), c) == r
  {
    assert Rep(c, i) + r + Rep(c, j) == Rep(c, i) + (r + Rep(c, j));
    TrimLeftPadded(c, i, r + Rep(c, j));
    if r == [] {
      assert r + Rep(c, j) == Rep(c, j) + [];
      TrimLeftPadded(c, j, []);
    } else {
      assert (r + Rep(c, j))[0] == r[0];
      assert TrimLeft(r + Rep(c, j), c) == r + Rep(c, j);
      TrimRightPadded(c, r, j);
    }
  }

  /** Trim removes only copies of c, only at the ends, and leaves a string
      that neither starts nor ends with c. */
  lemma TrimShape(s: string, c: char)
    ensures Unpadded(Trim(s, c), c)
    ensures exists i: nat, j: nat :: s == Rep(c, i) + Trim(s, c) + Rep(c, j)
  {
    var u := TrimLeft(s, c);
    var r := TrimRight(u, c);
    TrimLeftShape(s, c);
    TrimRightShape(u, c);
    var i, j := |s| - |u|, |u| - |r|;
    assert s == Rep(c, i) + r + Rep(c, j);
    if r != [] {
      assert u[0] == r[0];
    }
  }

  /** Trimming an already trimmed string changes nothing. */
  lemma TrimIdempotent(s: string, c: char)
    ensures Trim(Trim(s, c), c) == Trim(s, c)
  {
    var r := Trim(s, c);
    TrimShape(s, c);
    assert Rep(c, 0) + r + Rep(c, 0) == r;
    TrimOfPadded(c, 0, r, 0);
  }

  /** Extra copies of c around a string do not change what Trim returns. */
  lemma TrimPaddingInvariant(s: string, c: char, i: nat, j: nat)
    ensures Trim(Rep(c, i) + s + Rep(c, j), c) == Trim(s, c)
  {
    var r := Trim(s, c);
    TrimShape(s, c);
    var i': nat, j': nat :| s == Rep(c, i') + r + Rep(c, j');
    RepAdd(c, i, i');
    RepAdd(c, j', j);
    assert Rep(c, i) + s + Rep(c, j) == Rep(c, i + i') + r + Rep(c, j' + j);
    TrimOfPadded(c, i + i', r, j' + j);
  }

  /** Trim leaves nothing exactly when the string is made only of c. */
  lemma TrimEmptyIff(s: string, c: char)
    ensures Trim(s, c) == [] <==> forall k :: 0 <= k < |s| ==> s[k] == c
  {
    TrimShape(s, c);
    if forall k :: 0 <= k < |s| ==> s[k] == c {
      assert s == Rep(c, |s|) + [] + Rep(c, 0);
      TrimOfPadded(c, |s|, [], 0);
    }
  }

  /** Index of the first c in s, or |s| when s holds no c. */
  function IndexOf(s: string, c: char): (i: nat)
    ensures i <= |s|
    ensures i < |s| ==> s[i] == c
    ensures forall k :: 0 <= k < i ==> s[k] != c
    decreases |s|
  {
    if |s| == 0 then 0
    else if s[0] == c then 0
    else 1 + IndexOf(s[1..], c)
  }

  /** strings.Join(parts, sep) for the one-character separator sep. */
  function Join(parts: seq<string>, sep: char): string
  {
    if |parts| == 0 then ""
    else if |parts| == 1 then parts[0]
    else parts[0] + [sep] + Join(parts[1..], sep)
  }

  /** strings.Split(s, sep) for the one-character separator sep: the pieces
      between consecutive separators. A string without sep, the empty one
      included, gives exactly one piece. */
  function Split(s: string, sep: char): (parts: seq<string>)
    ensures |parts| >= 1
    decreases |s|
  {
    var i := IndexOf(s, sep);
    if i == |s| then [s] else [s[..i]] + Split(s[i + 1..], sep)
  }

  /** No piece holds the separator, and joining the pieces with it gives the
      string back: Join is the inverse of Split. */
  lemma {:induction false} JoinSplit(s: string, sep: char)
    ensures forall k :: 0 <= k < |Split(s, sep)| ==> sep !in Split(s, sep)[k]
    ensures Join(Split(s, sep), sep) == s
    decreases |s|
  {
    var i := IndexOf(s, sep);
    if i < |s| {
      var rest := Split(s[i + 1..], sep);
      var parts := [s[..i]] + rest;
      JoinSplit(s[i + 1..], sep);
      assert Split(s, sep) == parts;
      assert parts[1..] == rest;
      assert s == s[..i] + [sep] + s[i + 1..];
    }
  }

  /** Splitting a joined sequence of separator-free pieces gives the pieces
      back: Split is the inverse of Join. */
  lemma {:induction false} SplitJoin(parts: seq<string>, sep: char)
    requires |parts| >= 1
    requires forall k :: 0 <= k < |parts| ==> sep !in parts[k]
    ensures Split(Join(parts, sep), sep) == parts
    decreases |parts|
  {
    var s := Join(parts, sep);
    if |parts| == 1 {
      assert IndexOf(s, sep) == |s|;
    } else {
      var p := parts[0];
      assert s == p + [sep] + Join(parts[1..], sep);
      var i := IndexOf(s, sep);
      assert s[|p|] == sep;
      assert i == |p|;
      assert s[..i] == p;
      assert s[i + 1..] == Join(parts[1..], sep);
      SplitJoin(parts[1..], sep);
    }
  }

  /** One piece more than there are separators. */
  lemma {:induction false} SplitCount(s: string, sep: char)
    ensures |Split(s, sep)| == multiset(s)[sep] + 1
    decreases |s|
  {
    var i := IndexOf(s, sep);
    if i == |s| {
      assert sep !in multiset(s);
    } else {
      assert s == s[..i] + [sep] + s[i + 1..];
      assert sep !in multiset(s[..i]);
      assert multiset(s) == multiset(s[..i]) + multiset{sep} + multiset(s[i + 1..]);
      SplitCount(s[i + 1..], sep);
    }
  }

  /** The first piece is everything before the first separator; there is a
      second piece exactly when s holds the separator, and it runs up to the
      next separator or to the end. */
  lemma SplitFirstPieces(s: string, sep: char)
    ensures Split(s, sep)[0] == s[..IndexOf(s, sep)]
    ensures |Split(s, sep)| >= 2 <==> sep in s
    ensures sep in s ==>
      var rest := s[IndexOf(s, sep) + 1..];
      Split(s, sep)[1] == rest[..IndexOf(rest, sep)]
  {
    var i := IndexOf(s, sep);
    if i < |s| {
      var rest := s[i + 1..];
      assert Split(s, sep) == [s[..i]] + Split(rest, sep);
      assert Split(rest, sep)[0] == rest[..IndexOf(rest, sep)];
    }
  }

  /** The last of a non-empty sequence of pieces. */
  function Last(parts: seq<string>): string
    requires |parts| > 0
  {
    parts[|parts| - 1]
  }

  /** A string that ends with the separator has the empty string as its last
      piece. */
  lemma {:induction false} SplitLastEmpty(s: string, sep: char)
    requires |s| > 0 && s[|s| - 1] == sep
    ensures Last(Split(s, sep)) == ""
    decreases |s|
  {
    var i := IndexOf(s, sep);
    var rest := s[i + 1..];
    var tail := Split(rest, sep);
    var parts := Split(s, sep);
    assert parts == [s[..i]] + tail;
    assert Last(parts) == Last(tail);
    if i == |s| - 1 {
      assert rest == "";
      assert tail == [""];
    } else {
      assert |rest| > 0;
      assert rest[|rest| - 1] == sep;
      SplitLastEmpty(rest, sep);
    }
  }
}
