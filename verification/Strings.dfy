/**
 The string operations the Go sources take from `strings` and `sort`: trimming, splitting at a
 separator, joining, and the order of `sort.Strings` (code points compare like UTF-8 bytes).
 */
module Strings {

  // ---------------------------------------------------------------- trimming

  predicate IsSpace(c: char) {
    var n := c as int;
    || 9 <= n <= 13 || n == 0x20 || n == 0x85 || n == 0xA0 || n == 0x1680 || 0x2000 <= n <= 0x200A
    || n == 0x2028 || n == 0x2029 || n == 0x202F || n == 0x205F || n == 0x3000
  }

  /** The white space of unicode.IsSpace, character by character. */
  lemma SpacesAre(c: char)
    ensures IsSpace(c) <==>
              c in {'\t', '\n', '\U{B}', '\U{C}', '\r', ' ', '\U{85}', '\U{A0}', '\U{1680}', '\U{2000}', '\U{2001}', '\U{2002}',
                    '\U{2003}', '\U{2004}', '\U{2005}', '\U{2006}', '\U{2007}', '\U{2008}', '\U{2009}', '\U{200A}',
                    '\U{2028}', '\U{2029}', '\U{202F}', '\U{205F}', '\U{3000}'}
  {
    if IsSpace(c) && 0x2000 <= c as int <= 0x200A {
      assert c == (c as int) as char;
    }
  }

  function TrimLeft(s: string): string {
    if s != [] && IsSpace(s[0]) then TrimLeft(s[1..]) else s
  }

  function TrimRight(s: string): string {
    if s != [] && IsSpace(s[|s| - 1]) then TrimRight(s[..|s| - 1]) else s
  }

  /** strings.TrimSpace */
  function Trim(s: string): string {
    TrimRight(TrimLeft(s))
  }

  predicate Trimmed(s: string) {
    s == [] || (!IsSpace(s[0]) && !IsSpace(s[|s| - 1]))
  }

  lemma {:induction false} TrimLeftShape(s: string)
    ensures exists k :: 0 <= k <= |s| && TrimLeft(s) == s[k..]
    ensures TrimLeft(s) == [] || !IsSpace(TrimLeft(s)[0])
  {
    if s != [] && IsSpace(s[0]) {
      TrimLeftShape(s[1..]);
      var k :| 0 <= k <= |s[1..]| && TrimLeft(s[1..]) == s[1..][k..];
      assert s[1..][k..] == s[k + 1..];
    } else {
      assert s == s[0..];
    }
  }

  lemma {:induction false} TrimRightShape(s: string)
    ensures exists k :: 0 <= k <= |s| && TrimRight(s) == s[..k]
    ensures TrimRight(s) == [] || !IsSpace(TrimRight(s)[|TrimRight(s)| - 1])
  {
    if s != [] && IsSpace(s[|s| - 1]) {
      var front := s[..|s| - 1];
      TrimRightShape(front);
      var k :| 0 <= k <= |front| && TrimRight(front) == front[..k];
      assert front[..k] == s[..k];
    } else {
      assert s == s[..|s|];
    }
  }

  /** Trimming keeps a contiguous piece, leaves no space at either end, and fixes exactly such strings. */
  lemma TrimShape(s: string)
    ensures exists i, j :: 0 <= i <= j <= |s| && Trim(s) == s[i..j]
    ensures Trimmed(Trim(s))
    ensures Trim(s) == s <==> Trimmed(s)
    ensures |Trim(s)| <= |s|
  {
    hide Trim, Trimmed;
    TrimPiece(s);
    TrimLeavesTrimmed(s);
    TrimmedStays(s);
  }

  lemma TrimPiece(s: string)
    ensures exists i, j :: 0 <= i <= j <= |s| && Trim(s) == s[i..j]
    ensures |Trim(s)| <= |s|
  {
    hide TrimLeft, TrimRight, IsSpace;
    TrimLeftShape(s);
    var t := TrimLeft(s);
    var i :| 0 <= i <= |s| && t == s[i..];
    TrimRightShape(t);
    var k :| 0 <= k <= |t| && TrimRight(t) == t[..k];
    assert t[..k] == s[i..i + k];
    assert Trim(s) == s[i..i + k];
  }

  lemma TrimLeavesTrimmed(s: string)
    ensures Trimmed(Trim(s))
  {
    hide TrimLeft, TrimRight, IsSpace;
    var t := TrimLeft(s);
    TrimLeftShape(s);
    TrimRightShape(t);
    var k :| 0 <= k <= |t| && TrimRight(t) == t[..k];
    var r := TrimRight(t);
    assert Trim(s) == r;
    if r != [] {
      assert r[0] == t[0] && !IsSpace(r[|r| - 1]);
    }
  }

  lemma TrimmedStays(s: string)
    ensures Trimmed(s) ==> Trim(s) == s
  {
    hide IsSpace;
  }

  ghost predicate AllSpaces(s: string) {
    forall i :: 0 <= i < |s| ==> IsSpace(s[i])
  }

  /** Trimming takes away spaces at the ends and nothing else. */
  lemma TrimRemovesSpaces(s: string)
    ensures exists before, after :: s == before + Trim(s) + after && AllSpaces(before) && AllSpaces(after)
  {
    hide IsSpace, TrimLeft, TrimRight;
    var before := LeftSpaces(s);
    var after := RightSpaces(TrimLeft(s));
    assert Trim(s) == TrimRight(TrimLeft(s));
    assert s == before + (Trim(s) + after);
    assert s == before + Trim(s) + after;
  }

  lemma {:induction false} LeftSpaces(s: string) returns (before: string)
    ensures s == before + TrimLeft(s) && AllSpaces(before)
  {
    hide IsSpace;
    if s != [] && IsSpace(s[0]) {
      var rest := LeftSpaces(s[1..]);
      before := [s[0]] + rest;
      assert s == [s[0]] + s[1..] == [s[0]] + (rest + TrimLeft(s)) == before + TrimLeft(s);
    } else {
      before := [];
    }
  }

  lemma {:induction false} RightSpaces(s: string) returns (after: string)
    ensures s == TrimRight(s) + after && AllSpaces(after)
  {
    hide IsSpace;
    if s != [] && IsSpace(s[|s| - 1]) {
      var rest := RightSpaces(s[..|s| - 1]);
      after := rest + [s[|s| - 1]];
      assert s == s[..|s| - 1] + [s[|s| - 1]] == (TrimRight(s) + rest) + [s[|s| - 1]] == TrimRight(s) + after;
    } else {
      after := [];
    }
  }

  lemma TrimIdempotent(s: string)
    ensures Trim(Trim(s)) == Trim(s)
  {
    TrimShape(s);
    TrimShape(Trim(s));
  }

  /** The characters of ids: [A-Za-z0-9._:-] */
  predicate IdChar(c: char) {
    'A' <= c <= 'Z' || 'a' <= c <= 'z' || '0' <= c <= '9' || c == '.' || c == '_' || c == ':' || c == '-'
  }

  // ---------------------------------------------------------------- splitting and joining

  /** strings.Split(s, sep) for a one-character separator: at least one piece, none containing it. */
  function Split(s: string, sep: char): (pieces: seq<string>)
    ensures pieces != []
    ensures forall i :: 0 <= i < |pieces| ==> sep !in pieces[i]
  {
    if s == [] then [""]
    else
      SplitCons(s[0], Split(s[1..], sep), sep)
  }

  function Join(pieces: seq<string>, sep: char): string {
    if pieces == [] then ""
    else if |pieces| == 1 then pieces[0]
    else pieces[0] + [sep] + Join(pieces[1..], sep)
  }

  predicate HasPrefix(s: string, prefix: string) {
    |prefix| <= |s| && s[..|prefix|] == prefix
  }

  lemma {:induction false} JoinSplit(s: string, sep: char)
    ensures Join(Split(s, sep), sep) == s
  {
    if s != [] {
      JoinSplit(s[1..], sep);
      var rest := Split(s[1..], sep);
      if s[0] == sep {
        assert ([""] + rest)[1..] == rest;
      } else {
        assert ([[s[0]] + rest[0]] + rest[1..])[1..] == rest[1..];
      }
    }
  }

  lemma {:induction false} SplitPiece(s: string, sep: char)
    requires sep !in s
    ensures Split(s, sep) == [s]
  {
    if s != [] {
      assert sep !in s[1..];
      SplitPiece(s[1..], sep);
      assert [s[0]] + s[1..] == s;
    }
  }

  /** Splitting a concatenation at a separator concatenates the splits. */
  lemma {:induction false} SplitConcat(a: string, b: string, sep: char)
    ensures Split(a + [sep] + b, sep) == Split(a, sep) + Split(b, sep)
  {
    var s := a + [sep] + b;
    if a == [] {
      assert s[1..] == b;
    } else {
      SplitConcat(a[1..], b, sep);
      assert s[0] == a[0] && s[1..] == a[1..] + [sep] + b;
      SplitConsConcat(a[0], Split(a[1..], sep), Split(b, sep), sep);
    }
  }

  function SplitCons(c: char, rest: seq<string>, sep: char): seq<string>
    requires rest != []
  {
    if c == sep then [""] + rest else [[c] + rest[0]] + rest[1..]
  }

  lemma SplitConsConcat(c: char, a: seq<string>, b: seq<string>, sep: char)
    requires a != []
    ensures SplitCons(c, a + b, sep) == SplitCons(c, a, sep) + b
  {
    assert (a + b)[1..] == a[1..] + b;
  }

  lemma {:induction false} SplitJoin(pieces: seq<string>, sep: char)
    requires pieces != [] && forall i :: 0 <= i < |pieces| ==> sep !in pieces[i]
    ensures Split(Join(pieces, sep), sep) == pieces
  {
    SplitPiece(pieces[0], sep);
    if |pieces| > 1 {
      SplitJoin(pieces[1..], sep);
      SplitConcat(pieces[0], Join(pieces[1..], sep), sep);
    }
  }

  lemma {:induction false} JoinConcat(a: seq<string>, b: seq<string>, sep: char)
    requires a != [] && b != []
    ensures Join(a + b, sep) == Join(a, sep) + [sep] + Join(b, sep)
  {
    if |a| == 1 {
      assert (a + b)[1..] == b;
    } else {
      JoinConcat(a[1..], b, sep);
      assert (a + b)[1..] == a[1..] + b;
    }
  }

  /** A string starts with `prefix` and a separator exactly when its pieces start with the prefix's. */
  lemma PrefixIsPiecePrefix(s: string, prefix: string, sep: char)
    ensures s == prefix || HasPrefix(s, prefix + [sep]) <==> Split(prefix, sep) <= Split(s, sep)
  {
    var ps, pp := Split(s, sep), Split(prefix, sep);
    JoinSplit(s, sep);
    JoinSplit(prefix, sep);
    if HasPrefix(s, prefix + [sep]) {
      var rest := s[|prefix| + 1..];
      assert s == prefix + [sep] + rest;
      SplitConcat(prefix, rest, sep);
    }
    if pp <= ps && pp != ps {
      var tail := ps[|pp|..];
      assert ps == pp + tail;
      JoinConcat(pp, tail, sep);
    }
  }

  // ---------------------------------------------------------------- the order of sort.Strings

  predicate Less(a: string, b: string) {
    b != [] && (a == [] || a[0] < b[0] || (a[0] == b[0] && Less(a[1..], b[1..])))
  }

  /** The first difference decides, and a proper prefix comes first. */
  lemma {:induction false} LessExactly(a: string, b: string)
    ensures Less(a, b) <==>
              exists k :: 0 <= k <= |a| && k <= |b| && a[..k] == b[..k]
                          && ((k == |a| && k < |b|) || (k < |a| && k < |b| && a[k] < b[k]))
  {
    if a != [] && b != [] && a[0] == b[0] {
      LessExactly(a[1..], b[1..]);
      if k :| 0 <= k <= |a| && k <= |b| && a[..k] == b[..k] && ((k == |a| && k < |b|) || (k < |a| && k < |b| && a[k] < b[k])) {
        assert k > 0;
        assert a[1..][..k - 1] == a[..k][1..] && b[1..][..k - 1] == b[..k][1..];
      }
      if k :| 0 <= k <= |a[1..]| && k <= |b[1..]| && a[1..][..k] == b[1..][..k]
              && ((k == |a[1..]| && k < |b[1..]|) || (k < |a[1..]| && k < |b[1..]| && a[1..][k] < b[1..][k])) {
        assert a[..k + 1] == [a[0]] + a[1..][..k] && b[..k + 1] == [b[0]] + b[1..][..k];
      }
    } else if Less(a, b) {
      assert a[..0] == b[..0];
    }
  }

  lemma {:induction false} LessTotal(a: string, b: string)
    ensures Less(a, b) || a == b || Less(b, a)
    ensures !(Less(a, b) && Less(b, a)) && !(a == b && Less(a, b))
  {
    if a != [] && b != [] {
      LessTotal(a[1..], b[1..]);
      assert a == [a[0]] + a[1..] && b == [b[0]] + b[1..];
    }
  }

  lemma {:induction false} LessTransitive(a: string, b: string, c: string)
    requires Less(a, b) && Less(b, c)
    ensures Less(a, c)
  {
    if a != [] && a[0] == b[0] == c[0] {
      LessTransitive(a[1..], b[1..], c[1..]);
    }
  }

  predicate StrictlySorted(xs: seq<string>) {
    forall i, j :: 0 <= i < j < |xs| ==> Less(xs[i], xs[j])
  }

  function Elements(xs: seq<string>): set<string> {
    set x | x in xs
  }

  lemma ElementsAppend(xs: seq<string>, x: string)
    ensures Elements(xs + [x]) == Elements(xs) + {x}
  {
  }

  lemma ElementsEmpty(xs: seq<string>)
    ensures xs == [] <==> Elements(xs) == {}
  {
    if xs != [] {
      assert xs[0] in Elements(xs);
    }
  }

  /** Strictly sorted lists are determined by their elements. */
  lemma {:induction false} SortedUnique(xs: seq<string>, ys: seq<string>)
    requires StrictlySorted(xs) && StrictlySorted(ys) && Elements(xs) == Elements(ys)
    ensures xs == ys
  {
    if xs == [] || ys == [] {
      assert xs == [] <==> Elements(xs) == {} by { ElementsEmpty(xs); }
      assert ys == [] <==> Elements(ys) == {} by { ElementsEmpty(ys); }
    } else {
      assert xs[0] in Elements(ys) && ys[0] in Elements(xs);
      var i :| 0 <= i < |ys| && ys[i] == xs[0];
      var j :| 0 <= j < |xs| && xs[j] == ys[0];
      LessTotal(xs[0], ys[0]);
      assert xs[0] == ys[0];
      TailElements(xs);
      TailElements(ys);
      SortedUnique(xs[1..], ys[1..]);
      assert xs == [xs[0]] + xs[1..] && ys == [ys[0]] + ys[1..];
    }
  }

  lemma TailElements(xs: seq<string>)
    requires xs != [] && StrictlySorted(xs)
    ensures Elements(xs[1..]) == Elements(xs) - {xs[0]}
  {
    forall x | x in xs[1..]
      ensures x != xs[0]
    {
      var i :| 0 <= i < |xs[1..]| && xs[1..][i] == x;
      LessTotal(xs[0], xs[i + 1]);
    }
    forall x | x in xs && x != xs[0]
      ensures x in xs[1..]
    {
      var i :| 0 <= i < |xs| && xs[i] == x;
      assert xs[1..][i - 1] == x;
    }
  }

  /** Puts x at its place; a list already holding x stays as it is. */
  function InsertSorted(xs: seq<string>, x: string): seq<string> {
    if xs == [] then [x]
    else if x == xs[0] then xs
    else if Less(x, xs[0]) then [x] + xs
    else [xs[0]] + InsertSorted(xs[1..], x)
  }

  lemma {:induction false} InsertSortedKeeps(xs: seq<string>, x: string)
    requires StrictlySorted(xs)
    ensures StrictlySorted(InsertSorted(xs, x))
    ensures Elements(InsertSorted(xs, x)) == Elements(xs) + {x}
  {
    hide Less;
    if xs == [] || x == xs[0] {
    } else if Less(x, xs[0]) {
      forall y | y in xs
        ensures Less(x, y)
      {
        if y != xs[0] {
          var j :| 0 <= j < |xs| && xs[j] == y;
          LessTransitive(x, xs[0], y);
        }
      }
      SortedCons(x, xs);
    } else {
      LessTotal(x, xs[0]);
      InsertSortedKeeps(xs[1..], x);
      TailElements(xs);
      var rest := InsertSorted(xs[1..], x);
      forall y | y in rest
        ensures Less(xs[0], y)
      {
        assert y in Elements(rest);
        if y != x {
          var k :| 0 <= k < |xs[1..]| && xs[1..][k] == y;
          assert xs[k + 1] == y;
        }
      }
      SortedCons(xs[0], rest);
    }
  }

  lemma SortedCons(x: string, xs: seq<string>)
    requires StrictlySorted(xs) && forall y :: y in xs ==> Less(x, y)
    ensures StrictlySorted([x] + xs) && Elements([x] + xs) == {x} + Elements(xs)
  {
  }

  /** The strictly sorted list of the elements of xs: what sort.Strings makes of a list without repeats. */
  function SortStrings(xs: seq<string>): (ys: seq<string>)
    ensures StrictlySorted(ys) && Elements(ys) == Elements(xs)
  {
    if xs == [] then []
    else
      var n := |xs| - 1;
      var rest := SortStrings(xs[..n]);
      assert Elements(xs) == Elements(xs[..n]) + {xs[n]} by {
        assert xs == xs[..n] + [xs[n]];
      }
      InsertSortedKeeps(rest, xs[n]);
      InsertSorted(rest, xs[n])
  }

  lemma SortStringsBySet(xs: seq<string>, ys: seq<string>)
    requires Elements(xs) == Elements(ys)
    ensures SortStrings(xs) == SortStrings(ys)
  {
    SortedUnique(SortStrings(xs), SortStrings(ys));
  }

  /** Collects the keys of a Go map in whatever order it yields them, and sorts them. */
  method SortedKeys(all: set<string>) returns (keys: seq<string>)
    ensures StrictlySorted(keys) && Elements(keys) == all
  {
    keys := [];
    var todo := all;
    while todo != {}
      invariant todo <= all && Elements(keys) == all - todo
    {
      var key :| key in todo;
      todo := todo - {key};
      ElementsAppend(keys, key);
      keys := keys + [key];
    }
    keys := SortStrings(keys);
  }
}
