/**
 * The two Python string built-ins the incident parser relies on:
 * `str.strip()` with no argument and `str.split(sep)` with an explicit
 * separator, together with `str.count(sep)` and `sep.join(pieces)`, which
 * state what `split` does.
 */
module PyStr {

  /** The characters `str.isspace()` accepts, which are exactly the ones
      `str.strip()` removes: SPACE, the ASCII controls TAB..CR and FS..US,
      NEL, NO-BREAK SPACE and the Unicode space separators. */
  const Whitespace: seq<char> := [
    ' ', '\t', '\n', '\U{B}', '\U{C}', '\r', '\U{1C}', '\U{1D}', '\U{1E}',
    '\U{1F}', '\U{85}', '\U{A0}', '\U{1680}', '\U{2000}', '\U{2001}', '\U{2002}',
    '\U{2003}', '\U{2004}', '\U{2005}', '\U{2006}', '\U{2007}', '\U{2008}',
    '\U{2009}', '\U{200A}', '\U{2028}', '\U{2029}', '\U{202F}', '\U{205F}',
    '\U{3000}'
  ]

  /** `c` is one of `t[k..]`, looked up entry by entry. */
  predicate InFrom(c: char, t: seq<char>, k: nat)
    decreases |t| - k
  {
    k < |t| && (t[k] == c || InFrom(c, t, k + 1))
  }

  /** `c.isspace()`. */
  predicate IsWs(c: char) {
    InFrom(c, Whitespace, 0)
  }

  /** The entry-by-entry lookup is membership: `IsWs(c)` is
      `c in Whitespace`. */
  lemma {:induction false} InFromIsMembership(c: char, t: seq<char>, k: nat)
    requires k <= |t|
    ensures InFrom(c, t, k) <==> c in t[k..]
    decreases |t| - k
  {
    if k < |t| {
      InFromIsMembership(c, t, k + 1);
      assert t[k..] == [t[k]] + t[k + 1..];
    }
  }

  /** `c.isspace()` holds exactly for the characters of the table. */
  lemma IsWsIsMembership(c: char)
    ensures IsWs(c) <==> c in Whitespace
  {
    InFromIsMembership(c, Whitespace, 0);
    assert Whitespace[0..] == Whitespace;
  }

  /** The space character is whitespace. */
  lemma SpaceIsWs()
    ensures IsWs(' ')
  {
  }

  /** Every character is whitespace (the empty string included). */
  predicate AllWs(s: string) {
    forall i :: 0 <= i < |s| ==> IsWs(s[i])
  }

  /** Neither the first nor the last character is whitespace. */
  predicate Stripped(s: string) {
    s == [] || (!IsWs(s[0]) && !IsWs(s[|s| - 1]))
  }

  /** `s.lstrip()`: drops leading whitespace. */
  function TrimStart(s: string): string
    decreases |s|
  {
    if s != [] && IsWs(s[0]) then TrimStart(s[1..]) else s
  }

  /** `s.rstrip()`: drops trailing whitespace. */
  function TrimEnd(s: string): string
    decreases |s|
  {
    if s != [] && IsWs(s[|s| - 1]) then TrimEnd(s[..|s| - 1]) else s
  }

  /** `s.strip()`. */
  function Strip(s: string): string {
    TrimEnd(TrimStart(s))
  }

  /** `s.lstrip()` is the suffix of `s` that starts at its first
      non-whitespace character. */
  lemma {:induction false} TrimStartSpec(s: string)
    ensures |TrimStart(s)| <= |s| && TrimStart(s) == s[|s| - |TrimStart(s)|..]
    ensures forall i :: 0 <= i < |s| - |TrimStart(s)| ==> IsWs(s[i])
    ensures TrimStart(s) == [] || !IsWs(TrimStart(s)[0])
    decreases |s|
  {
    if s != [] && IsWs(s[0]) {
      TrimStartSpec(s[1..]);
    }
  }

  /** `s.rstrip()` is the prefix of `s` that ends at its last
      non-whitespace character. */
  lemma {:induction false} TrimEndSpec(s: string)
    ensures |TrimEnd(s)| <= |s| && TrimEnd(s) == s[..|TrimEnd(s)|]
    ensures forall i :: |TrimEnd(s)| <= i < |s| ==> IsWs(s[i])
    ensures TrimEnd(s) == [] || !IsWs(TrimEnd(s)[|TrimEnd(s)| - 1])
    decreases |s|
  {
    if s != [] && IsWs(s[|s| - 1]) {
      var r := TrimEnd(s[..|s| - 1]);
      TrimEndSpec(s[..|s| - 1]);
      assert s[..|s| - 1][..|r|] == s[..|r|];
    }
  }

  /** `s.strip()`: `s` is some whitespace, then the result, then some more
      whitespace, and the result neither starts nor ends with whitespace. */
  lemma StripSpec(s: string)
    ensures Stripped(Strip(s))
    ensures exists a: nat :: StripsTo(s, a, Strip(s))
  {
    var t := TrimStart(s);
    var r := TrimEnd(t);
    TrimStartSpec(s);
    TrimEndSpec(t);
    var a := |s| - |t|;
    SliceOfSuffix(s, a, |r|);
    assert StripsTo(s, a, r) by {
      forall i | a + |r| <= i < |s| ensures IsWs(s[i]) {
        assert s[i] == t[i - a];
      }
    }
  }

  /** A prefix of a suffix is a slice. */
  lemma SliceOfSuffix(s: string, a: nat, n: nat)
    requires a + n <= |s|
    ensures s[a..][..n] == s[a..a + n]
  {
  }

  /** `r` stands in `s` at offset `a`, with only whitespace around it. */
  ghost predicate StripsTo(s: string, a: nat, r: string) {
    && a + |r| <= |s|
    && r == s[a..a + |r|]
    && (forall i :: 0 <= i < a ==> IsWs(s[i]))
    && (forall i :: a + |r| <= i < |s| ==> IsWs(s[i]))
  }

  /** `s.strip()` is empty exactly when `s` is blank. */
  lemma StripEmptyIffBlank(s: string)
    ensures Strip(s) == [] <==> AllWs(s)
  {
    var r := Strip(s);
    StripSpec(s);
    var a: nat :| StripsTo(s, a, r);
    if r != [] {
      assert s[a] == r[0];
    }
  }

  /** Stripping a string that has no surrounding whitespace returns it. */
  lemma StripOfStripped(s: string)
    requires Stripped(s)
    ensures Strip(s) == s
  {
    assert TrimStart(s) == s;
  }

  /** `sep` stands in `s` at offset `i`. */
  predicate OccursAt(sep: string, s: string, i: nat) {
    i <= |s| && sep <= s[i..]
  }

  /** `sep` occurs somewhere in `s`. */
  predicate Occurs(sep: string, s: string) {
    exists i: nat | i <= |s| :: OccursAt(sep, s, i)
  }

  /** An occurrence inside a slice is an occurrence in the whole string. */
  lemma OccursInSlice(sep: string, s: string, a: nat, b: nat)
    requires a <= b <= |s|
    requires Occurs(sep, s[a..b])
    ensures Occurs(sep, s)
  {
    var i: nat :| i <= b - a && OccursAt(sep, s[a..b], i);
    assert sep == s[a..b][i..][..|sep|] == s[a + i..][..|sep|];
    assert OccursAt(sep, s, a + i);
  }

  /** An occurrence after the first character is an occurrence. */
  lemma OccursInTail(sep: string, s: string)
    requires s != [] && Occurs(sep, s[1..])
    ensures Occurs(sep, s)
  {
    var i: nat :| i <= |s| - 1 && OccursAt(sep, s[1..], i);
    assert s[1..][i..] == s[i + 1..];
    assert OccursAt(sep, s, i + 1);
  }

  /** Stripping cannot create an occurrence of a separator. */
  lemma StripKeepsNoOccurrence(sep: string, s: string)
    requires !Occurs(sep, s)
    ensures !Occurs(sep, Strip(s))
  {
    var r := Strip(s);
    StripSpec(s);
    var a: nat :| StripsTo(s, a, r);
    if Occurs(sep, r) {
      OccursInSlice(sep, s, a, a + |r|);
    }
  }

  /** `sep.join(ps)`. */
  function Join(ps: seq<string>, sep: string): string
    decreases |ps|
  {
    if |ps| == 0 then ""
    else if |ps| == 1 then ps[0]
    else ps[0] + sep + Join(ps[1..], sep)
  }

  /** `s.count(sep)`: occurrences found scanning left to right, each search
      resuming after the previous match (so they never overlap). */
  function SepCount(s: string, sep: string): nat
    requires sep != []
    decreases |s|
  {
    if s == [] then 0
    else if sep <= s then 1 + SepCount(s[|sep|..], sep)
    else SepCount(s[1..], sep)
  }

  /** An occurrence in `[c] + p` is at its start or inside `p`. */
  lemma OccursCons(sep: string, c: char, p: string)
    requires Occurs(sep, [c] + p)
    ensures sep <= [c] + p || Occurs(sep, p)
  {
    var s := [c] + p;
    var i: nat :| i <= |s| && OccursAt(sep, s, i);
    if i > 0 {
      assert s[i..] == p[i - 1..];
      assert OccursAt(sep, p, i - 1);
    }
  }

  /** `s.split(sep)`: the pieces between the occurrences of `sep` that a
      left-to-right scan finds, one more piece than `s.count(sep)`. */
  function Split(s: string, sep: string): (r: seq<string>)
    requires sep != []
    ensures |r| == SepCount(s, sep) + 1
    ensures r[0] <= s
    decreases |s|
  {
    if s == [] then
      [""]
    else if sep <= s then
      [""] + Split(s[|sep|..], sep)
    else
      var rest := Split(s[1..], sep);
      [[s[0]] + rest[0]] + rest[1..]
  }

  /** Joining the pieces of `s.split(sep)` with `sep` gives `s` back. */
  lemma {:induction false} JoinOfSplit(s: string, sep: string)
    requires sep != []
    ensures Join(Split(s, sep), sep) == s
    decreases |s|
  {
    if s == [] {
    } else if sep <= s {
      var rest := Split(s[|sep|..], sep);
      SplitCut(s, sep);
      JoinCons("", rest, sep);
      JoinOfSplit(s[|sep|..], sep);
      SepThenRest(s, sep);
    } else {
      var rest := Split(s[1..], sep);
      SplitStep(s, sep);
      JoinPrependChar(s[0], rest, sep);
      JoinOfSplit(s[1..], sep);
      assert s == [s[0]] + s[1..];
    }
  }

  /** A string that starts with `sep` is `sep` followed by the rest. */
  lemma SepThenRest(s: string, sep: string)
    requires sep <= s
    ensures s == "" + sep + s[|sep|..]
  {
  }

  /** Joining a piece in front of at least one more piece puts a separator
      between them. */
  lemma JoinCons(x: string, ps: seq<string>, sep: string)
    requires |ps| >= 1
    ensures Join([x] + ps, sep) == x + sep + Join(ps, sep)
  {
    assert ([x] + ps)[1..] == ps;
  }

  /** Prepending a character to the first piece prepends it to the join. */
  lemma JoinPrependChar(c: char, ps: seq<string>, sep: string)
    requires |ps| >= 1
    ensures Join([[c] + ps[0]] + ps[1..], sep) == [c] + Join(ps, sep)
  {
    var qs := [[c] + ps[0]] + ps[1..];
    assert qs[1..] == ps[1..];
  }

  /** No piece of `s.split(sep)` contains `sep`. */
  lemma {:induction false} SplitPiecesAvoidSep(s: string, sep: string)
    requires sep != []
    ensures forall i :: 0 <= i < |Split(s, sep)| ==> !Occurs(sep, Split(s, sep)[i])
    decreases |s|
  {
    if s == [] {
    } else if sep <= s {
      SplitPiecesAvoidSep(s[|sep|..], sep);
    } else {
      SplitPiecesAvoidSep(s[1..], sep);
      var rest := Split(s[1..], sep);
      var head := [s[0]] + rest[0];
      assert Split(s, sep) == [head] + rest[1..];
      if Occurs(sep, head) {
        OccursCons(sep, s[0], rest[0]);
      }
    }
  }

  /** When `s` does not start with `sep`, its first character goes to the
      first piece of the rest. */
  lemma SplitStep(s: string, sep: string)
    requires sep != [] && s != [] && !(sep <= s)
    ensures Split(s, sep) == [[s[0]] + Split(s[1..], sep)[0]] + Split(s[1..], sep)[1..]
  {
  }

  /** When `s` starts with `sep`, the first piece is empty and the rest
      comes from what follows the separator. */
  lemma SplitCut(s: string, sep: string)
    requires sep != [] && s != [] && sep <= s
    ensures Split(s, sep) == [""] + Split(s[|sep|..], sep)
  {
  }

  /** A string without an occurrence of `sep` splits into itself alone. */
  lemma {:induction false} SplitWithoutSep(s: string, sep: string)
    requires sep != [] && !Occurs(sep, s)
    ensures Split(s, sep) == [s]
    decreases |s|
  {
    if s != [] {
      assert !OccursAt(sep, s, 0);
      if Occurs(sep, s[1..]) {
        OccursInTail(sep, s);
      }
      SplitWithoutSep(s[1..], sep);
      assert [s[0]] + s[1..] == s;
    }
  }

  /** When the piece `p` cannot run into the separator that follows it,
      splitting `p + sep + q` cuts exactly after `p`. */
  lemma {:induction false} SplitAfterPiece(p: string, sep: string, q: string)
    requires sep != []
    requires !Occurs(sep, p + sep[..|sep| - 1])
    ensures Split(p + sep + q, sep) == [p] + Split(q, sep)
    decreases |p|
  {
    var s := p + sep + q;
    if p == [] {
      assert sep <= s && s[|sep|..] == q;
    } else {
      var tail := p[1..] + sep + q;
      assert s == [p[0]] + tail;
      assert !(sep <= s) by { PieceBlocksPrefix(p, sep, q); }
      assert Split(tail, sep) == [p[1..]] + Split(q, sep) by {
        PieceTailAvoidsSep(p, sep);
        SplitAfterPiece(p[1..], sep, q);
      }
      SplitStep(s, sep);
      assert [p[0]] + p[1..] == p;
    }
  }

  /** `sep` cannot start at the beginning of `p + sep + q` when `p` is not
      empty and does not run into `sep`. */
  lemma PieceBlocksPrefix(p: string, sep: string, q: string)
    requires sep != [] && p != []
    requires !Occurs(sep, p + sep[..|sep| - 1])
    ensures !(sep <= p + sep + q)
  {
    var t := p + sep[..|sep| - 1];
    if sep <= p + sep + q {
      assert (p + sep + q)[..|sep|] == t[..|sep|];
      assert OccursAt(sep, t, 0);
    }
  }

  /** Dropping the first character of `p` keeps it from running into `sep`. */
  lemma PieceTailAvoidsSep(p: string, sep: string)
    requires sep != [] && p != []
    requires !Occurs(sep, p + sep[..|sep| - 1])
    ensures !Occurs(sep, p[1..] + sep[..|sep| - 1])
  {
    var t := p + sep[..|sep| - 1];
    assert p[1..] + sep[..|sep| - 1] == t[1..];
    if Occurs(sep, t[1..]) { OccursInTail(sep, t); }
  }

  /** The converse of `JoinOfSplit`: pieces that contain no `sep`, and do
      not run into the separator after them, come back unchanged from
      splitting their join. */
  lemma {:induction false} SplitOfJoin(ps: seq<string>, sep: string)
    requires sep != [] && |ps| >= 1
    requires !Occurs(sep, ps[|ps| - 1])
    requires forall i :: 0 <= i < |ps| - 1 ==> !Occurs(sep, ps[i] + sep[..|sep| - 1])
    ensures Split(Join(ps, sep), sep) == ps
    decreases |ps|
  {
    if |ps| == 1 {
      SplitWithoutSep(ps[0], sep);
    } else {
      var tail := ps[1..];
      assert Join(ps, sep) == ps[0] + sep + Join(tail, sep);
      SplitAfterPiece(ps[0], sep, Join(tail, sep));
      assert forall i :: 0 <= i < |tail| - 1 ==> tail[i] == ps[i + 1];
      SplitOfJoin(tail, sep);
      assert ps == [ps[0]] + tail;
    }
  }

  /** Every piece of a blank string is blank. */
  lemma {:induction false} SplitOfBlank(s: string, sep: string)
    requires sep != [] && AllWs(s)
    ensures forall i :: 0 <= i < |Split(s, sep)| ==> AllWs(Split(s, sep)[i])
    decreases |s|
  {
    if s != [] {
      if sep <= s {
        SplitOfBlank(s[|sep|..], sep);
      } else {
        SplitOfBlank(s[1..], sep);
        var rest := Split(s[1..], sep);
        assert Split(s, sep) == [[s[0]] + rest[0]] + rest[1..];
      }
    }
  }
}
