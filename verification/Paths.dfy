/**
 Path normalization and scope (internal/service/backend/service.go, scope_runtime.go;
 internal/storage/domain/domain.go).  Go's path.Clean is a stack machine over the segments
 between slashes.  The reference it is compared with is `Walk`, which follows the segments
 one directory at a time from a given directory.
 */
module Paths {
  import opened Strings

  // ---------------------------------------------------------------- path.Clean

  function CleanStep(rooted: bool, stack: seq<string>, segment: string): seq<string> {
    if segment == "" || segment == "." then stack
    else if segment == ".." then
      if stack != [] && stack[|stack| - 1] != ".." then stack[..|stack| - 1]
      else if rooted then stack
      else stack + [".."]
    else stack + [segment]
  }

  function CleanSegments(rooted: bool, segments: seq<string>): seq<string> {
    if segments == [] then []
    else CleanStep(rooted, CleanSegments(rooted, segments[..|segments| - 1]), segments[|segments| - 1])
  }

  function Clean(s: string): string {
    var rooted := HasPrefix(s, "/");
    var stack := CleanSegments(rooted, Split(s, '/'));
    if rooted then "/" + Join(stack, '/')
    else if stack == [] then "."
    else Join(stack, '/')
  }

  // ---------------------------------------------------------------- the normalizers

  function WithSlashes(s: string): (r: string)
    ensures |r| == |s| && '\\' !in r
    ensures forall i :: 0 <= i < |s| ==> r[i] == if s[i] == '\\' then '/' else s[i]
    ensures '\\' !in s ==> r == s
  {
    if s == [] then [] else [if s[0] == '\\' then '/' else s[0]] + WithSlashes(s[1..])
  }

  predicate IsLetter(c: char) {
    'A' <= c <= 'Z' || 'a' <= c <= 'z'
  }

  predicate WindowsAbsolute(s: string) {
    |s| >= 3 && IsLetter(s[0]) && s[1] == ':' && s[2] == '/'
  }

  predicate Absolute(s: string) {
    HasPrefix(s, "/") || WindowsAbsolute(s)
  }

  predicate LatinLetter(c: char) {
    c in "ABCDEFGHIJKLMNOPQRSTUVWXYZ" || c in "abcdefghijklmnopqrstuvwxyz"
  }

  /** Absolute is what starts with a slash, or with a letter of the Latin alphabet, a colon and a slash. */
  lemma AbsoluteExactly(s: string)
    ensures Absolute(s) <==>
              || (exists rest: string :: s == "/" + rest)
              || exists letter: char, rest: string :: LatinLetter(letter) && s == [letter] + ":/" + rest
  {
    hide LatinLetter, IsLetter;
    if WindowsAbsolute(s) {
      Letters(s[0]);
      assert s == [s[0]] + ":/" + s[3..];
    }
    if HasPrefix(s, "/") {
      assert s == "/" + s[1..];
    }
    if rest: string :| s == "/" + rest {
      assert s[..1] == "/";
    }
    if letter: char, rest: string :| LatinLetter(letter) && s == [letter] + ":/" + rest {
      Letters(letter);
    }
  }

  lemma Letters(c: char)
    ensures IsLetter(c) <==> LatinLetter(c)
  {
    UpperLetters(c);
    LettersInOrder("abcdefghijklmnopqrstuvwxyz", 'a', c);
  }

  lemma UpperLetters(c: char)
    ensures c in "ABCDEFGHIJKLMNOPQRSTUVWXYZ" <==> 'A' <= c <= 'Z'
  {
    LettersInOrder("ABCDEFGHIJKLMNOPQRSTUVWXYZ", 'A', c);
  }

  lemma LettersInOrder(letters: string, first: char, c: char)
    requires |letters| == 26 && first as int < 0x1000
    requires forall i :: 0 <= i < 26 ==> letters[i] as int == first as int + i
    ensures c in letters <==> first <= c <= (first as int + 25) as char
  {
    if first <= c <= (first as int + 25) as char {
      assert letters[c as int - first as int] == c;
    }
  }

  /** normalizeCompletionPath; "" stands for a rejected path. */
  function Normalize(raw: string): string {
    var trimmed := Trim(raw);
    if trimmed == "" then ""
    else
      var slashed := WithSlashes(trimmed);
      if Absolute(slashed) then ""
      else
        var cleaned := Clean(slashed);
        if cleaned == "." || cleaned == ".." || HasPrefix(cleaned, "../") then "" else cleaned
  }

  /** NormalizeRepoPath, which the stores use: it keeps rooted and escaping paths. */
  function NormalizeRepo(raw: string): string {
    var trimmed := Trim(raw);
    if trimmed == "" then ""
    else
      var cleaned := Clean(WithSlashes(trimmed));
      if cleaned == "." then "" else cleaned
  }

  predicate Canonical(p: string) {
    Normalize(p) == p
  }

  /** Normal segments name something below the directory they are read in. */
  predicate Normal(segment: string) {
    segment != "" && segment != "." && segment != ".."
  }

  predicate AllNormal(segments: seq<string>) {
    forall i :: 0 <= i < |segments| ==> Normal(segments[i])
  }

  // ---------------------------------------------------------------- what Clean computes

  /** A cleaned stack: some ".." first (none when rooted), then only normal segments. */
  ghost predicate CleanShape(rooted: bool, stack: seq<string>) {
    exists k :: 0 <= k <= |stack| && (rooted ==> k == 0) && ClimbThenNormal(stack, k)
  }

  predicate ClimbThenNormal(stack: seq<string>, k: nat)
    requires k <= |stack|
  {
    && (forall i :: 0 <= i < k ==> stack[i] == "..")
    && (forall i :: k <= i < |stack| ==> Normal(stack[i]))
  }

  lemma {:induction false} CleanSegmentsShape(rooted: bool, segments: seq<string>)
    ensures CleanShape(rooted, CleanSegments(rooted, segments))
  {
    if segments == [] {
      assert ClimbThenNormal([], 0);
    } else {
      var n := |segments| - 1;
      CleanSegmentsShape(rooted, segments[..n]);
      var stack := CleanSegments(rooted, segments[..n]);
      var k :| 0 <= k <= |stack| && (rooted ==> k == 0) && ClimbThenNormal(stack, k);
      var stack' := CleanStep(rooted, stack, segments[n]);
      if segments[n] == ".." && (stack == [] || stack[|stack| - 1] == "..") && !rooted {
        assert k == |stack|;
        assert ClimbThenNormal(stack', k + 1);
      } else {
        assert ClimbThenNormal(stack', k);
      }
    }
  }

  lemma {:induction false} CleanSegmentsFixed(rooted: bool, stack: seq<string>)
    requires CleanShape(rooted, stack)
    ensures CleanSegments(rooted, stack) == stack
  {
    if stack != [] {
      var n := |stack| - 1;
      var k :| 0 <= k <= |stack| && (rooted ==> k == 0) && ClimbThenNormal(stack, k);
      var j := if k <= n then k else n;
      assert ClimbThenNormal(stack[..n], j);
      assert CleanShape(rooted, stack[..n]);
      CleanSegmentsFixed(rooted, stack[..n]);
      assert CleanStep(rooted, stack[..n], stack[n]) == stack[..n] + [stack[n]];
      assert stack[..n] + [stack[n]] == stack;
    }
  }

  lemma {:induction false} CleanSegmentsMembers(rooted: bool, segments: seq<string>, x: string)
    requires x in CleanSegments(rooted, segments)
    ensures x in segments
  {
    var n := |segments| - 1;
    if x != segments[n] {
      assert x in CleanSegments(rooted, segments[..n]);
      CleanSegmentsMembers(rooted, segments[..n], x);
    }
  }

  function Weight(segments: seq<string>): nat {
    if segments == [] then 0 else Weight(segments[..|segments| - 1]) + |segments[|segments| - 1]| + 1
  }

  lemma {:induction false} CleanSegmentsWeight(rooted: bool, segments: seq<string>)
    ensures Weight(CleanSegments(rooted, segments)) <= Weight(segments)
  {
    if segments != [] {
      var n := |segments| - 1;
      CleanSegmentsWeight(rooted, segments[..n]);
      var stack := CleanSegments(rooted, segments[..n]);
      assert forall x :: (stack + [x])[..|stack|] == stack;
    }
  }

  lemma {:induction false} WeightConcat(a: seq<string>, b: seq<string>)
    ensures Weight(a + b) == Weight(a) + Weight(b)
  {
    if b == [] {
      assert a + b == a;
    } else {
      WeightConcat(a, b[..|b| - 1]);
      assert (a + b)[..|a + b| - 1] == a + b[..|b| - 1];
    }
  }

  lemma {:induction false} JoinLength(segments: seq<string>)
    requires segments != []
    ensures |Join(segments, '/')| + 1 == Weight(segments)
  {
    if |segments| > 1 {
      JoinLength(segments[1..]);
      WeightConcat(segments[..1], segments[1..]);
      assert segments == segments[..1] + segments[1..];
    }
    assert segments[..1][..0] == [];
  }

  /** The segments of a cleaned relative path are its stack. */
  lemma CleanRelative(s: string)
    requires !HasPrefix(s, "/") && s != ""
    ensures var stack := CleanSegments(false, Split(s, '/'));
            && CleanShape(false, stack)
            && (stack == [] <==> Clean(s) == ".")
            && (stack != [] ==> Split(Clean(s), '/') == stack && Clean(s) != "" && !HasPrefix(Clean(s), "/"))
            && |Clean(s)| <= |s|
  {
    var segments := Split(s, '/');
    var stack := CleanSegments(false, segments);
    CleanSegmentsShape(false, segments);
    CleanSegmentsWeight(false, segments);
    JoinSplit(s, '/');
    JoinLength(segments);
    if stack != [] {
      forall i | 0 <= i < |stack|
        ensures '/' !in stack[i] && stack[i] != "" && stack[i] != "."
      {
        CleanSegmentsMembers(false, segments, stack[i]);
        var k :| 0 <= k <= |stack| && ClimbThenNormal(stack, k);
      }
      SplitJoin(stack, '/');
      JoinLength(stack);
      if Clean(s) == "." {
        SplitPiece(".", '/');
      }
      assert Clean(s) == Join(stack, '/');
      if |stack| == 1 {
        assert Clean(s) == stack[0];
      } else {
        assert Clean(s)[..|stack[0]|] == stack[0];
      }
      assert Clean(s)[0] == stack[0][0];
    }
  }

  // ---------------------------------------------------------------- the reference: walking directories

  /** The directory reached from `dir` by following the segments; ".." at the root stays there. */
  function Walk(dir: seq<string>, segments: seq<string>): seq<string> {
    if segments == [] then dir
    else
      var here := Walk(dir, segments[..|segments| - 1]);
      var segment := segments[|segments| - 1];
      if segment == "" || segment == "." then here
      else if segment == ".." then if here == [] then [] else here[..|here| - 1]
      else here + [segment]
  }

  lemma {:induction false} CleanKeepsLocation(dir: seq<string>, segments: seq<string>)
    ensures Walk(dir, CleanSegments(false, segments)) == Walk(dir, segments)
  {
    if segments != [] {
      var n := |segments| - 1;
      var front, last := segments[..n], segments[n];
      CleanKeepsLocation(dir, front);
      CleanSegmentsShape(false, front);
      var stack := CleanSegments(false, front);
      if Normal(last) {
        assert (stack + [last])[..|stack|] == stack;
      } else if last == ".." {
        if stack == [] || stack[|stack| - 1] == ".." {
          assert (stack + [".."])[..|stack|] == stack;
        } else {
          var k :| 0 <= k <= |stack| && ClimbThenNormal(stack, k);
          assert Normal(stack[|stack| - 1]);
        }
      }
    }
  }

  lemma {:induction false} WalkNormal(dir: seq<string>, segments: seq<string>)
    requires AllNormal(segments)
    ensures Walk(dir, segments) == dir + segments
  {
    if segments != [] {
      var n := |segments| - 1;
      WalkNormal(dir, segments[..n]);
      assert segments == segments[..n] + [segments[n]];
    }
  }

  lemma {:induction false} WalkClimb(dir: seq<string>, segments: seq<string>, k: nat)
    requires 0 < k <= |segments| && ClimbThenNormal(segments, k) && |dir| == k
    ensures Walk(dir, segments) == segments[k..]
    decreases |segments|
  {
    var n := |segments| - 1;
    if k == |segments| {
      ClimbOnly(dir, segments, n);
      assert segments[..n + 1] == segments;
    } else {
      WalkClimb(dir, segments[..n], k);
      assert segments[k..] == segments[..n][k..] + [segments[n]];
    }
  }

  lemma {:induction false} ClimbOnly(dir: seq<string>, segments: seq<string>, j: nat)
    requires j < |segments| <= |dir| && forall i :: 0 <= i < |segments| ==> segments[i] == ".."
    ensures Walk(dir, segments[..j + 1]) == dir[..|dir| - j - 1]
  {
    assert segments[..j + 1][..j] == segments[..j];
    if j > 0 {
      ClimbOnly(dir, segments, j - 1);
    } else {
      assert segments[..0] == [] && dir[..|dir|] == dir;
    }
  }

  // ---------------------------------------------------------------- what Normalize promises

  ghost predicate StrictlyUnder(dir: seq<string>, location: seq<string>) {
    dir < location
  }

  /** Whatever Normalize returns is "" or a relative path of normal segments, without a backslash. */
  lemma NormalizeForm(raw: string)
    requires Normalize(raw) != ""
    ensures AllNormal(Split(Normalize(raw), '/'))
    ensures !HasPrefix(Normalize(raw), "/") && '\\' !in Normalize(raw)
    ensures |Normalize(raw)| <= |Trim(raw)|
  {
    var slashed := WithSlashes(Trim(raw));
    CleanRelative(slashed);
    var stack := CleanSegments(false, Split(slashed, '/'));
    var k :| 0 <= k <= |stack| && ClimbThenNormal(stack, k);
    if k > 0 {
      ClimbPrefix(stack);
    }
    NoBackslashClean(slashed);
  }

  /** A stack that starts with ".." is printed as ".." or with the prefix "../". */
  lemma ClimbPrefix(stack: seq<string>)
    requires stack != [] && stack[0] == ".."
    ensures var s := Join(stack, '/'); s == ".." || HasPrefix(s, "../")
  {
    if |stack| > 1 {
      var s := Join(stack, '/');
      assert s == ".." + "/" + Join(stack[1..], '/');
      assert s[..3] == "../";
    }
  }

  lemma {:induction false} JoinMembers(pieces: seq<string>, c: char)
    requires c != '/' && c in Join(pieces, '/')
    ensures exists i :: 0 <= i < |pieces| && c in pieces[i]
  {
    if |pieces| > 1 && c !in pieces[0] {
      JoinMembers(pieces[1..], c);
      var i :| 0 <= i < |pieces[1..]| && c in pieces[1..][i];
      assert c in pieces[i + 1];
    }
  }

  lemma {:induction false} PieceMembers(s: string, i: nat, c: char)
    requires i < |Split(s, '/')| && c in Split(s, '/')[i]
    ensures c in s
  {
    if s != [] {
      var rest := Split(s[1..], '/');
      if s[0] == '/' {
        if i > 0 { PieceMembers(s[1..], i - 1, c); }
      } else if i > 0 {
        PieceMembers(s[1..], i, c);
      } else if c != s[0] {
        PieceMembers(s[1..], 0, c);
      }
    }
  }

  lemma NoBackslashClean(s: string)
    requires '\\' !in s
    ensures '\\' !in Clean(s)
  {
    var rooted := HasPrefix(s, "/");
    var stack := CleanSegments(rooted, Split(s, '/'));
    if '\\' in Join(stack, '/') {
      JoinMembers(stack, '\\');
      var i :| 0 <= i < |stack| && '\\' in stack[i];
      CleanSegmentsMembers(rooted, Split(s, '/'), stack[i]);
      var j :| 0 <= j < |Split(s, '/')| && Split(s, '/')[j] == stack[i];
      PieceMembers(s, j, '\\');
    }
  }

  /** The normalized path names, from every directory, the place the raw path leads to. */
  lemma NormalizeKeepsLocation(raw: string, dir: seq<string>)
    requires Normalize(raw) != ""
    ensures Walk(dir, Split(WithSlashes(Trim(raw)), '/')) == dir + Split(Normalize(raw), '/')
  {
    var slashed := WithSlashes(Trim(raw));
    NormalizeForm(raw);
    CleanRelative(slashed);
    CleanKeepsLocation(dir, Split(slashed, '/'));
    WalkNormal(dir, Split(Normalize(raw), '/'));
  }

  /** A path is accepted exactly when it is relative and leads strictly below every directory. */
  lemma NormalizeAccepts(raw: string)
    ensures var slashed := WithSlashes(Trim(raw));
            Normalize(raw) != "" <==>
            !Absolute(slashed) && forall dir :: StrictlyUnder(dir, Walk(dir, Split(slashed, '/')))
  {
    var slashed := WithSlashes(Trim(raw));
    var segments := Split(slashed, '/');
    if Normalize(raw) != "" {
      forall dir
        ensures StrictlyUnder(dir, Walk(dir, segments))
      {
        NormalizeKeepsLocation(raw, dir);
      }
    } else if slashed == "" {
      NotUnderItself(segments);
    } else if !Absolute(slashed) {
      CleanRelative(slashed);
      RejectedClimbs(slashed);
    }
  }

  lemma NotUnderItself(segments: seq<string>)
    requires segments == [""]
    ensures exists dir :: !StrictlyUnder(dir, Walk(dir, segments))
  {
    var root: seq<string> := [];
    assert segments[..0] == [];
    assert Walk(root, segments) == root;
    assert !StrictlyUnder(root, Walk(root, segments));
  }

  /** A rejected relative path climbs: some directory is not a proper prefix of where it leads. */
  lemma RejectedClimbs(slashed: string)
    requires slashed != "" && !HasPrefix(slashed, "/")
    requires var c := Clean(slashed); c == "." || c == ".." || HasPrefix(c, "../")
    ensures exists dir :: !StrictlyUnder(dir, Walk(dir, Split(slashed, '/')))
  {
    var segments := Split(slashed, '/');
    var stack := CleanSegments(false, segments);
    CleanRelative(slashed);
    if stack != [] {
      FirstSegmentClimbs(Clean(slashed));
    }
    ClimbingStack(segments, stack);
  }

  lemma ClimbingStack(segments: seq<string>, stack: seq<string>)
    requires stack == CleanSegments(false, segments) && CleanShape(false, stack)
    requires stack == [] || stack[0] == ".."
    ensures exists dir :: !StrictlyUnder(dir, Walk(dir, segments))
  {
    var k :| 0 <= k <= |stack| && ClimbThenNormal(stack, k);
    var dir: seq<string> := seq(k, _ => "");
    CleanKeepsLocation(dir, segments);
    if stack != [] {
      assert k > 0;
      WalkClimb(dir, stack, k);
      assert k < |stack| ==> stack[k..][0] == stack[k] != "";
    }
    assert !StrictlyUnder(dir, Walk(dir, segments));
  }

  lemma FirstSegmentClimbs(s: string)
    requires s == ".." || HasPrefix(s, "../")
    ensures Split(s, '/')[0] == ".."
  {
    PrefixIsPiecePrefix(s, "..", '/');
    SplitPiece("..", '/');
    assert ".." + ['/'] == "../";
  }

  /** Normalizing twice changes nothing exactly when the first result has no outer space or drive letter. */
  lemma NormalizeIdempotentExactly(raw: string)
    ensures var p := Normalize(raw);
            Canonical(p) <==> p == "" || (Trimmed(p) && !WindowsAbsolute(p))
  {
    var p := Normalize(raw);
    TrimShape(p);
    if p != "" {
      NormalizeForm(raw);
      if !Trimmed(p) {
        if Normalize(p) != "" {
          NormalizeForm(p);
        }
      } else if !WindowsAbsolute(p) {
        CanonicalIfClean(p);
      }
    }
  }

  lemma CanonicalIfClean(p: string)
    requires p != "" && Trimmed(p) && !Absolute(p) && '\\' !in p && AllNormal(Split(p, '/'))
    ensures Canonical(p)
  {
    TrimShape(p);
    var segments := Split(p, '/');
    assert ClimbThenNormal(segments, 0);
    CleanSegmentsFixed(false, segments);
    JoinSplit(p, '/');
    assert Clean(p) == p;
    if p == "." { SplitPiece(".", '/'); }
    if p == ".." || HasPrefix(p, "../") { FirstSegmentClimbs(p); }
  }

  /** Not every result is stable: a trailing space or a drive-like prefix survives one pass only. */
  lemma NormalizeNotIdempotent()
    ensures Normalize("a /") == "a " && !Canonical("a ")
    ensures Normalize("./C:/x") == "C:/x" && !Canonical("C:/x")
  {
    hide Normalize;
    TrailingSpaceSurvives();
    DriveSurvives();
    NormalizeIdempotentExactly("a /");
    NormalizeIdempotentExactly("./C:/x");
  }

  lemma TrailingSpaceSurvives()
    ensures Normalize("a /") == "a "
  {
    assert ["a ", ""][1..] == [""];
    assert ["a ", ""][..1] == ["a "] && ["a "][..0] == [];
    assert CleanSegments(false, ["a "]) == ["a "];
    NormalizeByStack("a /", ["a ", ""], ["a "]);
  }

  lemma DriveRejected()
    ensures Normalize("C:/x") == ""
  {
    hide Clean;
    TrimShape("C:/x");
  }

  lemma DriveSurvives()
    ensures Normalize("./C:/x") == "C:/x"
  {
    hide Normalize, Clean, CleanSegments, Split;
    assert [".", "C:", "x"][1..] == ["C:", "x"] && ["C:", "x"][1..] == ["x"];
    StackOfThree(".", "C:", "x");
    NormalizeByStack("./C:/x", [".", "C:", "x"], ["C:", "x"]);
  }

  lemma StackOfThree(a: string, b: string, c: string)
    requires a == "." && Normal(b)
    ensures CleanSegments(false, [a, b, c]) == CleanStep(false, [b], c)
  {
    assert [a, b, c][..2] == [a, b] && [a, b][..1] == [a] && [a][..0] == [];
    assert CleanSegments(false, [a]) == [];
    assert CleanSegments(false, [a, b]) == [b];
  }

  lemma NormalizeByStack(raw: string, segments: seq<string>, stack: seq<string>)
    requires raw != "" && Trimmed(raw) && '\\' !in raw && !Absolute(raw)
    requires segments != [] && (forall i :: 0 <= i < |segments| ==> '/' !in segments[i])
    requires raw == Join(segments, '/') && stack == CleanSegments(false, segments)
    requires stack != [] && Normal(stack[0])
    ensures Normalize(raw) == Join(stack, '/')
  {
    TrimShape(raw);
    SplitJoin(segments, '/');
    CleanRelative(raw);
    if Clean(raw) == ".." || HasPrefix(Clean(raw), "../") {
      FirstSegmentClimbs(Clean(raw));
    }
  }

  // ---------------------------------------------------------------- the stores' normalizer

  /** Plain paths: normal segments and no backslash. */
  predicate Plain(p: string) {
    AllNormal(Split(p, '/')) && '\\' !in p
  }

  /** The results of normalization are exactly the plain paths. */
  lemma ResultsExactly(p: string)
    ensures (p != "" && exists raw :: Normalize(raw) == p) <==> Plain(p)
  {
    hide Normalize, AllNormal;
    if raw :| Normalize(raw) == p {
      if p != "" {
        NormalizeForm(raw);
      }
    }
    if Plain(p) {
      DottedNormalizes(p);
    }
  }

  /** A plain path with a "." segment on either side normalizes to it, whatever spaces or drive it starts with. */
  lemma DottedNormalizes(p: string)
    requires Plain(p)
    ensures p != "" && Normalize("./" + p + "/.") == p
  {
    hide Normalize, Split, Join, CleanSegments;
    var raw := "./" + p + "/.";
    var plain := Split(p, '/');
    var segments := ["."] + plain + ["."];
    DottedJoin(p);
    DottedStack(plain);
    JoinSplit(p, '/');
    SplitPiece("", '/');
    assert Normal(plain[0]);
    assert raw[0] == '.' && raw[1] == '/' && raw[|raw| - 1] == '.';
    NormalizeByStack(raw, segments, plain);
  }

  lemma DottedJoin(p: string)
    ensures "./" + p + "/." == Join(["."] + Split(p, '/') + ["."], '/')
  {
    hide Split;
    var plain := Split(p, '/');
    JoinSplit(p, '/');
    JoinConcat(["."], plain, '/');
    JoinConcat(["."] + plain, ["."], '/');
    assert Join(["."], '/') == ".";
    assert "./" + p + "/." == "." + ['/'] + p + ['/'] + ".";
  }

  lemma DottedStack(plain: seq<string>)
    requires AllNormal(plain)
    ensures CleanSegments(false, ["."] + plain + ["."]) == plain
  {
    var segments := ["."] + plain + ["."];
    assert segments[..|segments| - 1] == ["."] + plain;
    CleanSegmentsSkip(false, ".", plain);
    assert ClimbThenNormal(plain, 0);
    CleanSegmentsFixed(false, plain);
  }

  /** An empty segment or a climb is not plain. */
  lemma NotPlain()
    ensures !Plain("a//b") && !Plain("../x")
  {
    hide Split;
    SplitConcat("a", "/b", '/');
    SplitConcat("", "b", '/');
    assert "a" + ['/'] + "/b" == "a//b" && "" + ['/'] + "b" == "/b";
    SplitPiece("a", '/');
    SplitPiece("", '/');
    assert Split("a//b", '/')[1] == "";
    SplitConcat("..", "x", '/');
    assert ".." + ['/'] + "x" == "../x";
    SplitPiece("..", '/');
    assert Split("../x", '/')[0] == "..";
  }

  lemma {:induction false} CleanSegmentsSkip(rooted: bool, skipped: string, segments: seq<string>)
    requires skipped == "" || skipped == "."
    ensures CleanSegments(rooted, [skipped] + segments) == CleanSegments(rooted, segments)
  {
    var all := [skipped] + segments;
    if segments == [] {
      assert all[..0] == [];
    } else {
      CleanSegmentsSkip(rooted, skipped, segments[..|segments| - 1]);
      assert all[..|all| - 1] == [skipped] + segments[..|segments| - 1];
    }
  }

  /** Cleaning a rooted path: a slash before the stack, which cleaning again leaves alone. */
  lemma CleanRooted(s: string)
    requires HasPrefix(s, "/")
    ensures var stack := CleanSegments(true, Split(s, '/'));
            Clean(s) == "/" + Join(stack, '/') && CleanSegments(true, Split(Clean(s), '/')) == stack
            && |Clean(s)| <= |s|
  {
    var segments := Split(s, '/');
    var stack := CleanSegments(true, segments);
    CleanSegmentsShape(true, segments);
    CleanSegmentsFixed(true, stack);
    assert s == "" + ['/'] + s[1..] && Clean(s) == "" + ['/'] + Join(stack, '/');
    SplitConcat("", s[1..], '/');
    SplitConcat("", Join(stack, '/'), '/');
    CleanSegmentsSkip(true, "", Split(s[1..], '/'));
    CleanSegmentsWeight(true, Split(s[1..], '/'));
    JoinSplit(s[1..], '/');
    JoinLength(Split(s[1..], '/'));
    if stack == [] {
      CleanSegmentsSkip(true, "", [""]);
      CleanSegmentsSkip(true, "", []);
      assert [""] + [] == [""];
    } else {
      forall i | 0 <= i < |stack|
        ensures '/' !in stack[i]
      {
        CleanSegmentsMembers(true, segments, stack[i]);
      }
      SplitJoin(stack, '/');
      JoinLength(stack);
      CleanSegmentsSkip(true, "", stack);
    }
  }

  lemma CleanIdempotent(s: string)
    requires s != ""
    ensures Clean(Clean(s)) == Clean(s) && |Clean(s)| <= |s|
  {
    if HasPrefix(s, "/") {
      CleanRooted(s);
      assert Clean(s)[..1] == "/";
      CleanRooted(Clean(s));
    } else {
      CleanRelative(s);
      var stack := CleanSegments(false, Split(s, '/'));
      if stack == [] {
        SplitPiece(".", '/');
        assert ["."][..0] == [];
        assert CleanSegments(false, ["."]) == [];
      } else {
        CleanRelative(Clean(s));
        CleanSegmentsFixed(false, stack);
      }
    }
  }

  /** From the root the stack machine is the walk itself. */
  lemma {:induction false} RootedIsWalk(segments: seq<string>)
    ensures CleanSegments(true, segments) == Walk([], segments)
  {
    if segments != [] {
      var n := |segments| - 1;
      RootedIsWalk(segments[..n]);
      CleanSegmentsShape(true, segments[..n]);
      var stack := CleanSegments(true, segments[..n]);
      var k :| 0 <= k <= |stack| && (true ==> k == 0) && ClimbThenNormal(stack, k);
      if stack != [] {
        assert Normal(stack[|stack| - 1]);
      }
    }
  }

  /** What the stores keep of a path: where it leads from the root, or from every directory; nothing if that is the directory itself. */
  lemma NormalizeRepoExactly(raw: string)
    ensures var p, slashed := NormalizeRepo(raw), WithSlashes(Trim(raw));
            && (HasPrefix(slashed, "/") ==> p == "/" + Join(Walk([], Split(slashed, '/')), '/'))
            && (slashed != "" && !HasPrefix(slashed, "/") && p == "" ==> forall dir :: Walk(dir, Split(slashed, '/')) == dir)
            && (slashed != "" && !HasPrefix(slashed, "/") && p != "" ==>
                  !HasPrefix(p, "/") && CleanShape(false, Split(p, '/'))
                  && forall dir :: Walk(dir, Split(slashed, '/')) == Walk(dir, Split(p, '/')))
            && (slashed == "" ==> p == "")
  {
    hide Trim, Split, Join, CleanSegments, Walk, CleanShape;
    var slashed := WithSlashes(Trim(raw));
    if HasPrefix(slashed, "/") {
      CleanRooted(slashed);
      RootedIsWalk(Split(slashed, '/'));
      assert Clean(slashed)[0] == '/' && Clean(slashed) != ".";
    } else if slashed != "" {
      CleanRelative(slashed);
      forall dir
        ensures Walk(dir, CleanSegments(false, Split(slashed, '/'))) == Walk(dir, Split(slashed, '/'))
        ensures Walk(dir, []) == dir
      {
        CleanKeepsLocation(dir, Split(slashed, '/'));
        WalkNowhere(dir);
      }
    }
  }

  lemma WalkNowhere(dir: seq<string>)
    ensures Walk(dir, []) == dir
  {
  }

  /** Where the stricter normalizer accepts, both give the same path. */
  lemma NormalizersAgree(raw: string)
    ensures Normalize(raw) != "" ==> NormalizeRepo(raw) == Normalize(raw)
  {
    hide Clean, Trim;
  }

  /** A stored path is stable under a second normalization exactly when no outer space is left in it. */
  lemma NormalizeRepoStableExactly(raw: string)
    ensures var p := NormalizeRepo(raw);
            && (NormalizeRepo(p) == p <==> Trimmed(p))
            && (NormalizeRepo(p) != p ==> |NormalizeRepo(p)| < |p|)
  {
    var p := NormalizeRepo(raw);
    TrimShape(p);
    if p != "" {
      var slashed := WithSlashes(Trim(raw));
      CleanIdempotent(slashed);
      NoBackslashClean(slashed);
      var t := WithSlashes(Trim(p));
      if t != "" { CleanIdempotent(t); }
    }
  }

  // ---------------------------------------------------------------- scope membership

  /** pathWithinScope */
  method PathWithinScope(candidate: string, scopePaths: seq<string>) returns (within: bool)
    ensures within <==> InScope(candidate, scopePaths)
  {
    hide Normalize;
    var normalizedCandidate := Normalize(candidate);
    if normalizedCandidate == "" {
      return false;
    }
    for i := 0 to |scopePaths|
      invariant forall j :: 0 <= j < i ==> !Covers(scopePaths[j], candidate)
    {
      var scopePath := Normalize(scopePaths[i]);
      if scopePath == "" {
        assert !Covers(scopePaths[i], candidate);
        continue;
      }
      CoversAsStrings(scopePaths[i], candidate, scopePath, normalizedCandidate);
      if normalizedCandidate == scopePath || HasPrefix(normalizedCandidate, scopePath + "/") {
        assert Covers(scopePaths[i], candidate);
        return true;
      }
    }
    return false;
  }

  /** The segments of the scope path are a prefix of the candidate's. */
  predicate Covers(scopePath: string, candidate: string) {
    var s, c := Normalize(scopePath), Normalize(candidate);
    s != "" && c != "" && Split(s, '/') <= Split(c, '/')
  }

  lemma CoversAsStrings(scopePath: string, candidate: string, s: string, c: string)
    requires s == Normalize(scopePath) && c == Normalize(candidate) && s != "" && c != ""
    ensures Covers(scopePath, candidate) <==> c == s || HasPrefix(c, s + "/")
  {
    PrefixIsPiecePrefix(c, s, '/');
  }

  predicate InScope(candidate: string, scopePaths: seq<string>) {
    exists i :: 0 <= i < |scopePaths| && Covers(scopePaths[i], candidate)
  }

  /** Coverage is containment of places: the candidate leads to the scope path's place or below it. */
  lemma CoversIsContainment(scopePath: string, candidate: string, dir: seq<string>)
    requires Normalize(scopePath) != "" && Normalize(candidate) != ""
    ensures Covers(scopePath, candidate) <==>
            Walk(dir, Split(WithSlashes(Trim(scopePath)), '/')) <= Walk(dir, Split(WithSlashes(Trim(candidate)), '/'))
  {
    NormalizeKeepsLocation(scopePath, dir);
    NormalizeKeepsLocation(candidate, dir);
    var s, c := Split(Normalize(scopePath), '/'), Split(Normalize(candidate), '/');
    if dir + s <= dir + c {
      assert forall i :: 0 <= i < |s| ==> s[i] == (dir + s)[|dir| + i] == (dir + c)[|dir| + i] == c[i];
    }
  }

  // ---------------------------------------------------------------- lists of paths

  function NormalizedSet(paths: seq<string>): set<string> {
    (set i | 0 <= i < |paths| :: Normalize(paths[i])) - {""}
  }

  /** normalizeCompletionPaths: the accepted results, each once, in order. */
  method NormalizePaths(paths: seq<string>) returns (out: seq<string>)
    ensures StrictlySorted(out) && Elements(out) == NormalizedSet(paths)
    ensures out == NormalizePathsSpec(paths)
  {
    hide Normalize, NormalizedSet, NormalizePathsSpec, Less;
    var seen: set<string> := {};
    out := [];
    NormalizePathsSpecMeaning(paths);
    NormalizedSetEmpty();
    for i := 0 to |paths|
      invariant seen == Elements(out) == NormalizedSet(paths[..i])
    {
      var normalized := Normalize(paths[i]);
      NormalizedSetExtend(paths[..i], paths[i]);
      assert paths[..i + 1] == paths[..i] + [paths[i]];
      if normalized == "" || normalized in seen {
        continue;
      }
      seen := seen + {normalized};
      out := out + [normalized];
    }
    assert paths[..|paths|] == paths;
    out := SortStrings(out);
    SortedUnique(out, NormalizePathsSpec(paths));
  }

  lemma NormalizedSetEmpty()
    ensures NormalizedSet([]) == {} == Elements([])
  {
  }

  lemma NormalizedSetExtend(paths: seq<string>, p: string)
    ensures NormalizedSet(paths + [p]) == NormalizedSet(paths) + ({Normalize(p)} - {""})
  {
    hide Normalize;
    var all := paths + [p];
    assert all[|paths|] == p;
    forall x | x in NormalizedSet(paths)
      ensures x in NormalizedSet(all)
    {
      var i :| 0 <= i < |paths| && Normalize(paths[i]) == x;
      assert all[i] == paths[i];
    }
  }

  function NormalizePathsSpec(paths: seq<string>): seq<string> {
    if paths == [] then []
    else
      var n := |paths| - 1;
      var rest := NormalizePathsSpec(paths[..n]);
      if Normalize(paths[n]) == "" then rest else InsertSorted(rest, Normalize(paths[n]))
  }

  lemma {:induction false} NormalizePathsSpecMeaning(paths: seq<string>)
    ensures StrictlySorted(NormalizePathsSpec(paths))
    ensures Elements(NormalizePathsSpec(paths)) == NormalizedSet(paths)
  {
    hide Normalize, NormalizedSet, Less, InsertSorted;
    NormalizedSetEmpty();
    if paths != [] {
      var n := |paths| - 1;
      NormalizePathsSpecMeaning(paths[..n]);
      NormalizedSetExtend(paths[..n], paths[n]);
      assert paths == paths[..n] + [paths[n]];
      InsertSortedKeeps(NormalizePathsSpec(paths[..n]), Normalize(paths[n]));
    }
  }
}
