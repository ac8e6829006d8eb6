/**
 The byte stream that a review fingerprint hashes (internal/service/backend/review.go,
 lines 417-460 and 523-643), before SHA-256.

 A snapshot maps the relative paths of a project, as the file system spells them, to what is found
 there.  No path of it runs through a symbolic link; a path that is not in it does not exist.
 */
module Fingerprint {
  import opened Wrappers
  import opened Strings
  import opened Paths

  const NUL := '\0'

  datatype Node = Regular(hash: string) | Irregular(hash: string) | Directory

  type Snapshot = map<string, Node>

  datatype Kind = Missing | EmptyDirectory | File

  datatype Entry = Entry(path: string, kind: Kind, hash: string)

  function KindText(kind: Kind): string {
    match kind
    case Missing => "missing"
    case EmptyDirectory => "dir-empty"
    case File => "file"
  }

  // ---------------------------------------------------------------- the stream

  /** writeFingerprintPart for each value: trimmed and ended by a NUL. */
  function Terminated(parts: seq<string>): string {
    if parts == [] then "" else Trim(parts[0]) + [NUL] + Terminated(parts[1..])
  }

  function EntryParts(e: Entry): seq<string> {
    [e.path, KindText(e.kind)] + if e.hash != "" then [e.hash] else []
  }

  function Parts(entries: seq<Entry>): seq<string> {
    if entries == [] then [] else EntryParts(entries[0]) + Parts(entries[1..])
  }

  /** The preimage: the parts that name gate, command and runner files, then the entries. */
  function Stream(header: seq<string>, entries: seq<Entry>): string {
    Terminated(header + Parts(entries))
  }

  /** No NUL in a path; a hash on files and only there. */
  ghost predicate ValidEntry(e: Entry) {
    NUL !in e.path && NUL !in e.hash && Trimmed(e.hash) && (e.hash != "" <==> e.kind == File)
  }

  ghost predicate ValidEntries(entries: seq<Entry>) {
    forall i :: 0 <= i < |entries| ==> ValidEntry(entries[i])
  }

  function TrimPath(e: Entry): Entry {
    e.(path := Trim(e.path))
  }

  function TrimPaths(entries: seq<Entry>): seq<Entry> {
    if entries == [] then [] else [TrimPath(entries[0])] + TrimPaths(entries[1..])
  }

  function TrimAll(parts: seq<string>): seq<string> {
    if parts == [] then [] else [Trim(parts[0])] + TrimAll(parts[1..])
  }

  /** Reading entries back from their trimmed parts. */
  function ReadEntries(parts: seq<string>): Option<seq<Entry>> {
    if parts == [] then Some([])
    else if |parts| < 2 then None
    else if parts[1] == "file" then
      if |parts| < 3 then None
      else
        var rest := ReadEntries(parts[3..]);
        if rest.None? then None else Some([Entry(parts[0], File, parts[2])] + rest.value)
    else
      var rest := ReadEntries(parts[2..]);
      if rest.None? || (parts[1] != "missing" && parts[1] != "dir-empty") then None
      else Some([Entry(parts[0], if parts[1] == "missing" then Missing else EmptyDirectory, "")] + rest.value)
  }

  lemma {:induction false} TrimKeepsOut(s: string, c: char)
    requires c !in s
    ensures c !in Trim(s)
  {
    TrimShape(s);
    var i, j :| 0 <= i <= j <= |s| && Trim(s) == s[i..j];
  }

  /** A terminated stream splits into its trimmed parts. */
  lemma {:induction false} TerminatedSplits(parts: seq<string>)
    requires forall i :: 0 <= i < |parts| ==> NUL !in parts[i]
    ensures Split(Terminated(parts), NUL) == TrimAll(parts) + [""]
  {
    if parts != [] {
      TerminatedSplits(parts[1..]);
      TrimKeepsOut(parts[0], NUL);
      SplitConcat(Trim(parts[0]), Terminated(parts[1..]), NUL);
      SplitPiece(Trim(parts[0]), NUL);
    }
  }

  lemma {:induction false} TerminatedConcat(a: seq<string>, b: seq<string>)
    ensures Terminated(a + b) == Terminated(a) + Terminated(b)
  {
    hide Trim;
    if a == [] {
      assert a + b == b;
    } else {
      TerminatedConcat(a[1..], b);
      assert (a + b)[1..] == a[1..] + b;
    }
  }

  lemma {:induction false} TrimAllConcat(a: seq<string>, b: seq<string>)
    ensures TrimAll(a + b) == TrimAll(a) + TrimAll(b)
  {
    if a == [] {
      assert a + b == b;
    } else {
      TrimAllConcat(a[1..], b);
      assert (a + b)[1..] == a[1..] + b;
    }
  }

  lemma KindTextTrimmed(kind: Kind)
    ensures Trim(KindText(kind)) == KindText(kind) && NUL !in KindText(kind)
  {
    TrimShape(KindText(kind));
  }

  lemma TrimEntryParts(e: Entry)
    requires ValidEntry(e)
    ensures TrimAll(EntryParts(e)) == EntryParts(TrimPath(e))
    ensures forall i :: 0 <= i < |EntryParts(e)| ==> NUL !in EntryParts(e)[i]
  {
    hide Trim;
    KindTextTrimmed(e.kind);
    TrimShape(e.hash);
    var front := [e.path, KindText(e.kind)];
    assert front[1..] == [KindText(e.kind)] && [KindText(e.kind)][1..] == [];
    assert TrimAll([KindText(e.kind)]) == [KindText(e.kind)];
    assert TrimAll(front) == [Trim(e.path), KindText(e.kind)];
    if e.hash != "" {
      TrimAllConcat(front, [e.hash]);
      assert [e.hash][1..] == [];
    } else {
      assert front + [] == front;
    }
  }

  lemma {:induction false} ReadsBack(entries: seq<Entry>)
    requires ValidEntries(entries)
    ensures ReadEntries(TrimAll(Parts(entries))) == Some(TrimPaths(entries))
    ensures forall i :: 0 <= i < |Parts(entries)| ==> NUL !in Parts(entries)[i]
  {
    hide Trim, EntryParts;
    if entries != [] {
      var e, rest := entries[0], entries[1..];
      ReadsBack(rest);
      TrimEntryParts(e);
      TrimAllConcat(EntryParts(e), Parts(rest));
      ReadOne(TrimPath(e), TrimAll(Parts(rest)));
    }
  }

  lemma ReadOne(e: Entry, rest: seq<string>)
    requires e.hash != "" <==> e.kind == File
    ensures ReadEntries(EntryParts(e) + rest)
            == if ReadEntries(rest).None? then None else Some([e] + ReadEntries(rest).value)
  {
    var parts := EntryParts(e) + rest;
    assert parts[0] == e.path && parts[1] == KindText(e.kind);
    if e.kind == File {
      assert parts[2] == e.hash && parts[3..] == rest;
    } else {
      assert parts[2..] == rest;
    }
  }

  /** For a fixed header two streams are equal exactly when the entry lists are, outer spaces of paths aside. */
  lemma StreamDecodable(header: seq<string>, a: seq<Entry>, b: seq<Entry>)
    requires ValidEntries(a) && ValidEntries(b)
    ensures Stream(header, a) == Stream(header, b) <==> TrimPaths(a) == TrimPaths(b)
  {
    hide Trim;
    TerminatedConcat(header, Parts(a));
    TerminatedConcat(header, Parts(b));
    if Stream(header, a) == Stream(header, b) {
      var h := |Terminated(header)|;
      assert Terminated(Parts(a)) == Stream(header, a)[h..] && Terminated(Parts(b)) == Stream(header, b)[h..];
      ReadsBack(a);
      ReadsBack(b);
      TerminatedSplits(Parts(a));
      TerminatedSplits(Parts(b));
      var ta, tb := TrimAll(Parts(a)), TrimAll(Parts(b));
      assert ta == (ta + [""])[..|ta|] && tb == (tb + [""])[..|tb|];
      assert ta == tb;
    }
    if TrimPaths(a) == TrimPaths(b) {
      SameParts(a, b);
      TerminatedByTrim(Parts(a));
      TerminatedByTrim(Parts(b));
    }
  }

  lemma {:induction false} SameParts(a: seq<Entry>, b: seq<Entry>)
    requires ValidEntries(a) && ValidEntries(b) && TrimPaths(a) == TrimPaths(b)
    ensures TrimAll(Parts(a)) == TrimAll(Parts(b))
  {
    hide Trim, EntryParts;
    if a != [] {
      assert b != [] && TrimPaths(a)[0] == TrimPaths(b)[0] && TrimPaths(a)[1..] == TrimPaths(b)[1..];
      SameParts(a[1..], b[1..]);
      TrimEntryParts(a[0]);
      TrimEntryParts(b[0]);
      TrimAllConcat(EntryParts(a[0]), Parts(a[1..]));
      TrimAllConcat(EntryParts(b[0]), Parts(b[1..]));
    } else {
      assert b == [];
    }
  }

  lemma {:induction false} TerminatedByTrim(parts: seq<string>)
    ensures Terminated(parts) == Terminated(TrimAll(parts))
  {
    if parts != [] {
      TerminatedByTrim(parts[1..]);
      TrimIdempotent(parts[0]);
    }
  }

  /** Trimming the parts does merge some lists: a path and the same path with a space after it. */
  lemma OuterSpaceCollides(header: seq<string>, path: string, hash: string)
    requires NUL !in path && NUL !in hash && hash != "" && Trimmed(hash)
    ensures Stream(header, [Entry(path + " ", File, hash)]) == Stream(header, [Entry(path, File, hash)])
  {
    var a, b := Entry(path + " ", File, hash), Entry(path, File, hash);
    TrimTrailing(path);
    assert [a][1..] == [] && [b][1..] == [];
    StreamDecodable(header, [a], [b]);
  }

  lemma TrimTrailing(s: string)
    ensures Trim(s + " ") == Trim(s)
  {
    TrimLeftTrailing(s);
    if TrimLeft(s) == [] {
      assert [' '][..0] == [];
    } else {
      assert (TrimLeft(s) + " ")[..|TrimLeft(s)|] == TrimLeft(s);
    }
  }

  lemma {:induction false} TrimLeftTrailing(s: string)
    ensures TrimLeft(s + " ") == if TrimLeft(s) == [] then [] else TrimLeft(s) + " "
  {
    if s == [] {
      assert s + " " == " " && " "[1..] == [];
    } else {
      assert (s + " ")[1..] == s[1..] + " ";
      TrimLeftTrailing(s[1..]);
    }
  }

  // ---------------------------------------------------------------- collecting the entries

  /** Below the root, and not below a directory named .git inside it. */
  predicate WalkedUnder(root: string, path: string) {
    var r, p := Split(root, '/'), Split(path, '/');
    r < p && forall i :: |r| <= i < |p| - 1 ==> p[i] != ".git"
  }

  /** The regular files that walking the directory finds and whose paths normalization accepts. */
  function WalkFiles(snapshot: Snapshot, root: string): set<string> {
    set q | q in snapshot && snapshot[q].Regular? && WalkedUnder(root, q) && Normalize(q) != ""
  }

  /** Walked files are listed under their normalized paths, where several may meet. */
  function Results(files: set<string>): set<string> {
    set q | q in files :: Normalize(q)
  }

  predicate Walks(snapshot: Snapshot, scopePath: string) {
    scopePath in snapshot && snapshot[scopePath].Directory? && WalkFiles(snapshot, scopePath) != {}
  }

  function KeysFor(snapshot: Snapshot, scopePath: string): set<string> {
    if Walks(snapshot, scopePath) then Results(WalkFiles(snapshot, scopePath)) else {scopePath}
  }

  /**
   * Which of the files that meet in a path a walk of the root leaves there: the last one after an
   * unstable sort, so any, but settled by the names alone.
   */
  type Winner = (string, set<string>, string) -> string

  ghost predicate Decides(winner: Winner) {
    forall root, files, q :: q in files ==>
      winner(root, files, Normalize(q)) in files && Normalize(winner(root, files, Normalize(q))) == Normalize(q)
  }

  function SourceOf(winner: Winner, snapshot: Snapshot, scopePath: string, p: string): string {
    if Walks(snapshot, scopePath) then winner(scopePath, WalkFiles(snapshot, scopePath), p) else scopePath
  }

  /** The listed paths and where each one's entry comes from: a later scope path replaces what an earlier one gave. */
  function Table(winner: Winner, snapshot: Snapshot, ordered: seq<string>): map<string, string> {
    if ordered == [] then map[]
    else
      var last := ordered[|ordered| - 1];
      Table(winner, snapshot, ordered[..|ordered| - 1])
      + map p | p in KeysFor(snapshot, last) :: SourceOf(winner, snapshot, last, p)
  }

  /** The table for a scope in sorted order.  Its repeats are left out here, see RepeatShowsNothing. */
  function Shown(winner: Winner, snapshot: Snapshot, scope: seq<string>): map<string, string> {
    Table(winner, snapshot, SortStrings(scope))
  }

  /** A scope path met again right after itself changes nothing. */
  lemma RepeatShowsNothing(winner: Winner, snapshot: Snapshot, front: seq<string>, path: string)
    ensures Table(winner, snapshot, front + [path] + [path]) == Table(winner, snapshot, front + [path])
  {
    hide KeysFor, SourceOf;
    assert (front + [path] + [path])[..|front| + 1] == front + [path];
    assert (front + [path])[..|front|] == front;
  }

  /** The entry listed at p when it is read from q. */
  function EntryFrom(snapshot: Snapshot, p: string, q: string): Entry {
    if q !in snapshot then Entry(p, Missing, "")
    else match snapshot[q]
      case Regular(hash) => Entry(p, File, hash)
      case Irregular(hash) => Entry(p, File, hash)
      case Directory => Entry(p, EmptyDirectory, "")
  }

  function PathsOf(entries: seq<Entry>): seq<string> {
    seq(|entries|, i requires 0 <= i < |entries| => entries[i].path)
  }

  /** The sorted list of the table's entries. */
  ghost predicate Listing(snapshot: Snapshot, table: map<string, string>, entries: seq<Entry>) {
    && StrictlySorted(PathsOf(entries)) && Elements(PathsOf(entries)) == table.Keys
    && forall i :: 0 <= i < |entries| ==> EntryOk(snapshot, table, entries[i])
  }

  ghost predicate EntryOk(snapshot: Snapshot, table: map<string, string>, e: Entry) {
    e.path in table && e == EntryFrom(snapshot, e.path, table[e.path])
  }

  /** The entries that one scope path gives. */
  function ScopeEntries(winner: Winner, snapshot: Snapshot, path: string): map<string, Entry> {
    map p | p in KeysFor(snapshot, path) :: EntryFrom(snapshot, p, SourceOf(winner, snapshot, path, p))
  }

  ghost predicate EntriesOf(snapshot: Snapshot, table: map<string, string>, entries: map<string, Entry>) {
    entries.Keys == table.Keys && forall p :: p in entries ==> entries[p] == EntryFrom(snapshot, p, table[p])
  }

  /** collectReviewFingerprintEntries */
  method Collect(winner: Winner, snapshot: Snapshot, scopePaths: seq<string>) returns (out: seq<Entry>)
    ensures Listing(snapshot, Shown(winner, snapshot, scopePaths), out)
  {
    hide StrictlySorted, Elements, WalkFiles, Results, EntriesOf, Table, Listing, ScopeEntries;
    var entries: map<string, Entry> := map[];
    var orderedScope := SortStrings(scopePaths);
    NoEntries(winner, snapshot);
    for i := 0 to |orderedScope|
      invariant EntriesOf(snapshot, Table(winner, snapshot, orderedScope[..i]), entries)
    {
      var path := orderedScope[i];
      EntriesStep(winner, snapshot, orderedScope, i, entries);
      GivenEntries(winner, snapshot, path);
      if path !in snapshot {
        entries := entries[path := Entry(path, Missing, "")];
        continue;
      }
      if snapshot[path].Directory? {
        var files := WalkFiles(snapshot, path);
        if files == {} {
          entries := entries[path := Entry(path, EmptyDirectory, "")];
          continue;
        }
        entries := entries + map p | p in Results(files) :: EntryFrom(snapshot, p, winner(path, files, p));
        continue;
      }
      entries := entries[path := Entry(path, File, snapshot[path].hash)];
    }
    assert orderedScope[..|orderedScope|] == orderedScope;
    out := ListEntries(snapshot, Table(winner, snapshot, orderedScope), entries);
  }

  lemma NoEntries(winner: Winner, snapshot: Snapshot)
    ensures forall ordered: seq<string> :: EntriesOf(snapshot, Table(winner, snapshot, ordered[..0]), map[])
  {
  }

  lemma EntriesStep(winner: Winner, snapshot: Snapshot, ordered: seq<string>, i: nat, entries: map<string, Entry>)
    requires i < |ordered| && EntriesOf(snapshot, Table(winner, snapshot, ordered[..i]), entries)
    ensures EntriesOf(snapshot, Table(winner, snapshot, ordered[..i + 1]), entries + ScopeEntries(winner, snapshot, ordered[i]))
  {
    hide KeysFor, SourceOf, EntryFrom;
    assert ordered[..i + 1][..i] == ordered[..i];
  }

  lemma GivenEntries(winner: Winner, snapshot: Snapshot, path: string)
    ensures var given := ScopeEntries(winner, snapshot, path);
            if path !in snapshot then given == map[path := Entry(path, Missing, "")]
            else if !snapshot[path].Directory? then given == map[path := Entry(path, File, snapshot[path].hash)]
            else
              var files := WalkFiles(snapshot, path);
              if files == {} then given == map[path := Entry(path, EmptyDirectory, "")]
              else given == map p | p in Results(files) :: EntryFrom(snapshot, p, winner(path, files, p))
    ensures forall entries: map<string, Entry>, e: Entry :: entries[path := e] == entries + map[path := e]
  {
    hide WalkFiles, Results;
  }

  /** The keys sorted, and their entries in that order. */
  method ListEntries(snapshot: Snapshot, ghost table: map<string, string>, entries: map<string, Entry>) returns (out: seq<Entry>)
    requires EntriesOf(snapshot, table, entries)
    ensures Listing(snapshot, table, out)
  {
    hide StrictlySorted, Elements, EntryFrom;
    var keys := SortedKeys(entries.Keys);
    out := [];
    for i := 0 to |keys|
      invariant |out| == i && forall j :: 0 <= j < i ==> out[j].path == keys[j] && EntryOk(snapshot, table, out[j])
    {
      InKeys(keys, i);
      EntryPath(snapshot, keys[i], table[keys[i]]);
      out := out + [entries[keys[i]]];
    }
    assert PathsOf(out) == keys;
  }

  lemma InKeys(keys: seq<string>, i: nat)
    requires i < |keys|
    ensures keys[i] in Elements(keys)
  {
  }

  lemma EntryPath(snapshot: Snapshot, p: string, q: string)
    ensures EntryFrom(snapshot, p, q).path == p
  {
  }

  // ---------------------------------------------------------------- which source a path is listed from

  /** The last scope path, in sorted order, that lists p. */
  ghost predicate LastFor(snapshot: Snapshot, scope: set<string>, p: string, s: string) {
    && s in scope && p in KeysFor(snapshot, s)
    && forall t :: t in scope && p in KeysFor(snapshot, t) ==> t == s || Less(t, s)
  }

  lemma {:induction false} LastDecides(winner: Winner, snapshot: Snapshot, ordered: seq<string>, p: string, s: string)
    requires StrictlySorted(ordered) && LastFor(snapshot, Elements(ordered), p, s)
    ensures p in Table(winner, snapshot, ordered) && Table(winner, snapshot, ordered)[p] == SourceOf(winner, snapshot, s, p)
  {
    hide KeysFor, SourceOf, Less;
    var n := |ordered| - 1;
    assert ordered == ordered[..n] + [ordered[n]];
    ElementsAppend(ordered[..n], ordered[n]);
    if s != ordered[n] {
      var k :| 0 <= k < |ordered| && ordered[k] == s;
      assert Less(s, ordered[n]);
      LessTotal(s, ordered[n]);
      LastDecides(winner, snapshot, ordered[..n], p, s);
    }
  }

  lemma {:induction false} SomeLast(winner: Winner, snapshot: Snapshot, ordered: seq<string>, p: string) returns (s: string)
    requires StrictlySorted(ordered) && p in Table(winner, snapshot, ordered)
    ensures LastFor(snapshot, Elements(ordered), p, s)
  {
    hide KeysFor, SourceOf, Less;
    var n := |ordered| - 1;
    assert ordered == ordered[..n] + [ordered[n]];
    ElementsAppend(ordered[..n], ordered[n]);
    if p in KeysFor(snapshot, ordered[n]) {
      s := ordered[n];
      forall t | t in Elements(ordered) && t != s
        ensures Less(t, s)
      {
        var k :| 0 <= k < |ordered| && ordered[k] == t;
      }
    } else {
      s := SomeLast(winner, snapshot, ordered[..n], p);
    }
  }

  /** The same, for a scope in any order: what p is listed from, and that it is listed only if some scope path lists it. */
  lemma ShownByLast(winner: Winner, snapshot: Snapshot, scope: seq<string>, p: string)
    ensures forall s :: LastFor(snapshot, Elements(scope), p, s) ==>
              p in Shown(winner, snapshot, scope) && Shown(winner, snapshot, scope)[p] == SourceOf(winner, snapshot, s, p)
    ensures p in Shown(winner, snapshot, scope) ==> exists s :: LastFor(snapshot, Elements(scope), p, s)
  {
    hide LastFor, SourceOf, Table, StrictlySorted, Elements;
    var ordered := SortStrings(scope);
    forall s | LastFor(snapshot, Elements(scope), p, s)
      ensures p in Shown(winner, snapshot, scope) && Shown(winner, snapshot, scope)[p] == SourceOf(winner, snapshot, s, p)
    {
      LastDecides(winner, snapshot, ordered, p, s);
    }
    if p in Shown(winner, snapshot, scope) {
      var s := SomeLast(winner, snapshot, ordered, p);
    }
  }

  /** Scope path s lists p with what is found at q, or could. */
  ghost predicate Gives(snapshot: Snapshot, s: string, p: string, q: string) {
    if Walks(snapshot, s) then q in WalkFiles(snapshot, s) && Normalize(q) == p else p == s && q == s
  }

  /** A table's sources are among the possible ones. */
  lemma SourceGiven(winner: Winner, snapshot: Snapshot, s: string, p: string)
    requires Decides(winner) && p in KeysFor(snapshot, s)
    ensures Gives(snapshot, s, p, SourceOf(winner, snapshot, s, p))
  {
    hide Normalize, WalkFiles;
    if Walks(snapshot, s) {
      var q :| q in WalkFiles(snapshot, s) && Normalize(q) == p;
    }
  }

  // ---------------------------------------------------------------- what the fingerprint tells

  /** The listing is determined by the table. */
  lemma ListingUnique(snapshot: Snapshot, table: map<string, string>, a: seq<Entry>, b: seq<Entry>)
    requires Listing(snapshot, table, a) && Listing(snapshot, table, b)
    ensures a == b
  {
    hide EntryFrom, StrictlySorted, Elements;
    SamePaths(a, b);
    forall i | 0 <= i < |a|
      ensures a[i] == b[i]
    {
      assert EntryOk(snapshot, table, a[i]) && EntryOk(snapshot, table, b[i]);
    }
  }

  lemma SamePaths(a: seq<Entry>, b: seq<Entry>)
    requires StrictlySorted(PathsOf(a)) && StrictlySorted(PathsOf(b)) && Elements(PathsOf(a)) == Elements(PathsOf(b))
    ensures |a| == |b| && forall i :: 0 <= i < |a| ==> a[i].path == b[i].path
  {
    hide StrictlySorted, Elements;
    SortedUnique(PathsOf(a), PathsOf(b));
    assert |a| == |PathsOf(a)| == |PathsOf(b)| == |b|;
    forall i | 0 <= i < |a|
      ensures a[i].path == b[i].path
    {
      assert a[i].path == PathsOf(a)[i] == PathsOf(b)[i] == b[i].path;
    }
  }

  /** Order and repeats of the scope paths do not matter. */
  lemma ScopeOrderIrrelevant(winner: Winner, snapshot: Snapshot, scope: seq<string>, scope': seq<string>, out: seq<Entry>, out': seq<Entry>)
    requires Elements(scope) == Elements(scope')
    requires Listing(snapshot, Shown(winner, snapshot, scope), out) && Listing(snapshot, Shown(winner, snapshot, scope'), out')
    ensures out == out'
  {
    hide Listing, Table;
    SortStringsBySet(scope, scope');
    ListingUnique(snapshot, Shown(winner, snapshot, scope), out, out');
  }

  /** Listing a regular file too changes no entry exactly when it was listed from itself, or a later scope path lists it. */
  lemma ListedFileExactly(winner: Winner, snapshot: Snapshot, scope: seq<string>, file: string)
    requires file in snapshot && snapshot[file].Regular?
    ensures var before := Shown(winner, snapshot, scope);
            Shown(winner, snapshot, scope + [file]) == before
            <==> (file in before && before[file] == file)
                 || exists s :: s in Elements(scope) && Less(file, s) && file in KeysFor(snapshot, s)
  {
    hide KeysFor, SourceOf, Shown, Less;
    var before, after := Shown(winner, snapshot, scope), Shown(winner, snapshot, scope + [file]);
    var paths := Elements(scope);
    ElementsAppend(scope, file);
    FileListsItself(winner, snapshot, file);
    forall p | p != file
      ensures (p in before <==> p in after) && (p in before ==> before[p] == after[p])
    {
      ShownByLast(winner, snapshot, scope, p);
      ShownByLast(winner, snapshot, scope + [file], p);
      assert forall s :: LastFor(snapshot, paths + {file}, p, s) <==> LastFor(snapshot, paths, p, s);
    }
    ShownByLast(winner, snapshot, scope, file);
    ShownByLast(winner, snapshot, scope + [file], file);
    if s :| s in paths && Less(file, s) && file in KeysFor(snapshot, s) {
      ListedLater(winner, snapshot, scope, file, s);
    } else {
      forall t | t in paths && file in KeysFor(snapshot, t)
        ensures t == file || Less(t, file)
      {
        LessTotal(t, file);
      }
      assert LastFor(snapshot, paths + {file}, file, file);
      assert after[file] == file;
    }
  }

  lemma FileListsItself(winner: Winner, snapshot: Snapshot, file: string)
    requires file in snapshot && snapshot[file].Regular?
    ensures KeysFor(snapshot, file) == {file} && SourceOf(winner, snapshot, file, file) == file
  {
  }

  lemma ListedLater(winner: Winner, snapshot: Snapshot, scope: seq<string>, file: string, s: string)
    requires file in snapshot && snapshot[file].Regular?
    requires s in Elements(scope) && Less(file, s) && file in KeysFor(snapshot, s)
    ensures var before, after := Shown(winner, snapshot, scope), Shown(winner, snapshot, scope + [file]);
            file in before && file in after && before[file] == after[file]
  {
    hide KeysFor, SourceOf, Shown, Less, Elements;
    var paths := Elements(scope);
    ElementsAppend(scope, file);
    var last := LastOf(snapshot, paths, file, s);
    assert last == s || Less(s, last);
    if last != s {
      LessTransitive(file, s, last);
    }
    LessTotal(file, last);
    assert LastFor(snapshot, paths + {file}, file, last);
    ShownByLast(winner, snapshot, scope, file);
    ShownByLast(winner, snapshot, scope + [file], file);
  }

  /** Among the scope paths that list p one is last. */
  lemma {:induction false} LastOf(snapshot: Snapshot, scope: set<string>, p: string, s: string) returns (last: string)
    requires s in scope && p in KeysFor(snapshot, s)
    ensures LastFor(snapshot, scope, p, last)
    decreases scope
  {
    hide KeysFor, Less;
    if t :| t in scope && p in KeysFor(snapshot, t) && t != s {
      var rest := LastOf(snapshot, scope - {s}, p, t);
      LessTotal(rest, s);
      if Less(rest, s) {
        last := s;
        forall u | u in scope && p in KeysFor(snapshot, u) && u != s
          ensures Less(u, s)
        {
          if u != rest {
            LessTransitive(u, rest, s);
          }
        }
      } else {
        last := rest;
      }
    } else {
      last := s;
    }
  }

  /** So listing a canonical file that a scoped directory's walk finds is redundant where no other path meets it. */
  lemma ListedFileRedundant(winner: Winner, snapshot: Snapshot, scope: seq<string>, directory: string, file: string)
    requires Decides(winner) && directory in scope && directory in snapshot && snapshot[directory].Directory?
    requires file in snapshot && snapshot[file].Regular? && WalkedUnder(directory, file) && Canonical(file) && file != ""
    requires forall s, q :: s in scope && Gives(snapshot, s, file, q) ==> q == file
    ensures Shown(winner, snapshot, scope + [file]) == Shown(winner, snapshot, scope)
  {
    hide SourceOf, Shown, Less, WalkedUnder, Normalize;
    assert file in WalkFiles(snapshot, directory);
    assert file in KeysFor(snapshot, directory);
    var last := LastOf(snapshot, Elements(scope), file, directory);
    ShownByLast(winner, snapshot, scope, file);
    SourceGiven(winner, snapshot, last, file);
    ListedFileExactly(winner, snapshot, scope, file);
  }

  /** No NUL in a path, and hex hashes. */
  ghost predicate ValidSnapshot(snapshot: Snapshot) {
    forall p :: p in snapshot ==> NUL !in p && (!snapshot[p].Directory? ==> ValidHash(snapshot[p].hash))
  }

  predicate ValidHash(hash: string) {
    hash != "" && Trimmed(hash) && NUL !in hash
  }

  ghost predicate ValidScope(scope: seq<string>) {
    forall p :: p in scope ==> NUL !in p
  }

  lemma ListingValid(winner: Winner, snapshot: Snapshot, scope: seq<string>, entries: seq<Entry>)
    requires ValidSnapshot(snapshot) && ValidScope(scope) && Decides(winner)
    requires Listing(snapshot, Shown(winner, snapshot, scope), entries)
    ensures ValidEntries(entries)
  {
    hide StrictlySorted, Shown, Elements, SourceOf, Normalize;
    var table := Shown(winner, snapshot, scope);
    forall i | 0 <= i < |entries|
      ensures ValidEntry(entries[i])
    {
      var p := entries[i].path;
      assert EntryOk(snapshot, table, entries[i]);
      ShownByLast(winner, snapshot, scope, p);
      var s :| LastFor(snapshot, Elements(scope), p, s);
      GivenValid(winner, snapshot, scope, s, p);
    }
  }

  lemma GivenValid(winner: Winner, snapshot: Snapshot, scope: seq<string>, s: string, p: string)
    requires ValidSnapshot(snapshot) && ValidScope(scope) && Decides(winner) && s in Elements(scope) && p in KeysFor(snapshot, s)
    ensures ValidEntry(EntryFrom(snapshot, p, SourceOf(winner, snapshot, s, p)))
  {
    hide SourceOf, Normalize, WalkedUnder;
    SourceGiven(winner, snapshot, s, p);
    if Walks(snapshot, s) {
      NormalizeKeepsOut(SourceOf(winner, snapshot, s, p), NUL);
    }
  }

  /** Normalization introduces no character but '/' and '.'. */
  lemma NormalizeKeepsOut(raw: string, c: char)
    requires c !in raw && c != '/' && c != '.'
    ensures c !in Normalize(raw)
  {
    hide Clean, Split, Trim, Absolute;
    TrimKeepsOut(raw, c);
    SlashesKeepOut(Trim(raw), c);
    CleanKeepsOut(WithSlashes(Trim(raw)), c);
  }

  lemma {:induction false} SlashesKeepOut(s: string, c: char)
    requires c !in s && c != '/'
    ensures c !in WithSlashes(s)
  {
    if s != [] {
      SlashesKeepOut(s[1..], c);
    }
  }

  lemma CleanKeepsOut(s: string, c: char)
    requires c !in s && c != '/' && c != '.'
    ensures c !in Clean(s)
  {
    hide CleanSegments, Split, Join;
    var rooted := HasPrefix(s, "/");
    var stack := CleanSegments(rooted, Split(s, '/'));
    if c in Join(stack, '/') {
      JoinMembers(stack, c);
      var i :| 0 <= i < |stack| && c in stack[i];
      CleanSegmentsMembers(rooted, Split(s, '/'), stack[i]);
      var k :| 0 <= k < |Split(s, '/')| && Split(s, '/')[k] == stack[i];
      PieceMembers(s, k, c);
    }
  }

  /** Two snapshots list the same paths with the same entries. */
  ghost predicate SameView(a: Snapshot, tableA: map<string, string>, b: Snapshot, tableB: map<string, string>) {
    && tableA.Keys == tableB.Keys
    && forall p :: p in tableA && p in tableB ==> EntryFrom(a, p, tableA[p]) == EntryFrom(b, p, tableB[p])
  }

  /** Where no listed path has an outer space, two snapshots give the same stream exactly when they look the same. */
  lemma FingerprintTellsExactly(header: seq<string>, winner: Winner, a: Snapshot, scopeA: seq<string>, b: Snapshot, scopeB: seq<string>,
                                entriesA: seq<Entry>, entriesB: seq<Entry>)
    requires ValidSnapshot(a) && ValidSnapshot(b) && ValidScope(scopeA) && ValidScope(scopeB) && Decides(winner)
    requires Listing(a, Shown(winner, a, scopeA), entriesA) && Listing(b, Shown(winner, b, scopeB), entriesB)
    requires forall p :: p in Shown(winner, a, scopeA).Keys + Shown(winner, b, scopeB).Keys ==> Trimmed(p)
    ensures Stream(header, entriesA) == Stream(header, entriesB)
            <==> SameView(a, Shown(winner, a, scopeA), b, Shown(winner, b, scopeB))
  {
    hide Shown, Stream, SameView, EntryFrom;
    ListingValid(winner, a, scopeA, entriesA);
    ListingValid(winner, b, scopeB, entriesB);
    StreamDecodable(header, entriesA, entriesB);
    ListingTrimmed(a, Shown(winner, a, scopeA), entriesA);
    ListingTrimmed(b, Shown(winner, b, scopeB), entriesB);
    ListingsEqualExactly(a, Shown(winner, a, scopeA), b, Shown(winner, b, scopeB), entriesA, entriesB);
  }

  lemma ListingTrimmed(snapshot: Snapshot, table: map<string, string>, entries: seq<Entry>)
    requires Listing(snapshot, table, entries) && forall p :: p in table ==> Trimmed(p)
    ensures TrimPaths(entries) == entries
  {
    hide StrictlySorted, EntryFrom, Trimmed;
    assert forall i :: 0 <= i < |entries| ==> EntryOk(snapshot, table, entries[i]);
    TrimPathsFixed(entries);
  }

  lemma {:induction false} TrimPathsFixed(entries: seq<Entry>)
    requires forall i :: 0 <= i < |entries| ==> Trimmed(entries[i].path)
    ensures TrimPaths(entries) == entries
  {
    if entries != [] {
      TrimPathsFixed(entries[1..]);
      TrimShape(entries[0].path);
      assert entries == [entries[0]] + entries[1..];
    }
  }

  lemma ListingsEqualExactly(a: Snapshot, tableA: map<string, string>, b: Snapshot, tableB: map<string, string>,
                             entriesA: seq<Entry>, entriesB: seq<Entry>)
    requires Listing(a, tableA, entriesA) && Listing(b, tableB, entriesB)
    ensures entriesA == entriesB <==> SameView(a, tableA, b, tableB)
  {
    hide EntryFrom, StrictlySorted;
    if entriesA == entriesB {
      forall p | p in tableA && p in tableB
        ensures EntryFrom(a, p, tableA[p]) == EntryFrom(b, p, tableB[p])
      {
        assert p in Elements(PathsOf(entriesA));
        var i :| 0 <= i < |PathsOf(entriesA)| && PathsOf(entriesA)[i] == p;
        assert EntryOk(a, tableA, entriesA[i]) && EntryOk(b, tableB, entriesB[i]);
      }
    }
    if SameView(a, tableA, b, tableB) {
      SamePaths(entriesA, entriesB);
      forall i | 0 <= i < |entriesA|
        ensures entriesA[i] == entriesB[i]
      {
        assert EntryOk(a, tableA, entriesA[i]) && EntryOk(b, tableB, entriesB[i]);
      }
    }
  }

  /** Where every walked file has a canonical name, each path is listed from itself. */
  lemma CanonicalShowsItself(winner: Winner, snapshot: Snapshot, scope: seq<string>)
    requires Decides(winner) && CanonicalWalks(snapshot, scope)
    ensures forall p :: p in Shown(winner, snapshot, scope) ==> Shown(winner, snapshot, scope)[p] == p
  {
    hide Shown, SourceOf, WalkFiles, Normalize;
    forall p | p in Shown(winner, snapshot, scope)
      ensures Shown(winner, snapshot, scope)[p] == p
    {
      ShownByLast(winner, snapshot, scope, p);
      var s :| LastFor(snapshot, Elements(scope), p, s);
      SourceGiven(winner, snapshot, s, p);
      assert s in scope;
      var q := SourceOf(winner, snapshot, s, p);
      assert q in WalkFiles(snapshot, s) ==> Canonical(q);
    }
  }

  ghost predicate CanonicalWalks(snapshot: Snapshot, scope: seq<string>) {
    forall s, q :: s in scope && q in WalkFiles(snapshot, s) ==> Canonical(q)
  }

  /** The same is found at p: nothing, a directory, or a file with the same content. */
  ghost predicate SameFound(a: Snapshot, b: Snapshot, p: string) {
    || (p !in a && p !in b)
    || (p in a && p in b && a[p].Directory? && b[p].Directory?)
    || (p in a && p in b && !a[p].Directory? && !b[p].Directory? && a[p].hash == b[p].hash)
  }

  lemma EntriesTellFound(a: Snapshot, b: Snapshot, p: string)
    ensures EntryFrom(a, p, p) == EntryFrom(b, p, p) <==> SameFound(a, b, p)
  {
  }

  /** There the stream tells exactly what the scope shows, path by path. */
  lemma FingerprintTellsContents(header: seq<string>, winner: Winner, a: Snapshot, scopeA: seq<string>, b: Snapshot, scopeB: seq<string>,
                                 entriesA: seq<Entry>, entriesB: seq<Entry>)
    requires ValidSnapshot(a) && ValidSnapshot(b) && ValidScope(scopeA) && ValidScope(scopeB) && Decides(winner)
    requires CanonicalWalks(a, scopeA) && CanonicalWalks(b, scopeB)
    requires Listing(a, Shown(winner, a, scopeA), entriesA) && Listing(b, Shown(winner, b, scopeB), entriesB)
    requires forall p :: p in Shown(winner, a, scopeA).Keys + Shown(winner, b, scopeB).Keys ==> Trimmed(p)
    ensures Stream(header, entriesA) == Stream(header, entriesB)
            <==> Shown(winner, a, scopeA).Keys == Shown(winner, b, scopeB).Keys
                 && forall p :: p in Shown(winner, a, scopeA) ==> SameFound(a, b, p)
  {
    hide Shown, Stream, EntryFrom, Listing, SameFound;
    forall p
      ensures EntryFrom(a, p, p) == EntryFrom(b, p, p) <==> SameFound(a, b, p)
    {
      EntriesTellFound(a, b, p);
    }
    FingerprintTellsExactly(header, winner, a, scopeA, b, scopeB, entriesA, entriesB);
    CanonicalShowsItself(winner, a, scopeA);
    CanonicalShowsItself(winner, b, scopeB);
  }

  // ---------------------------------------------------------------- when a change shows

  /** Changing a regular file's content changes the stream exactly when some path is listed from that file. */
  lemma ChangeShowsExactly(header: seq<string>, winner: Winner, a: Snapshot, scope: seq<string>, file: string, hash: string,
                           entriesA: seq<Entry>, entriesB: seq<Entry>)
    requires ValidSnapshot(a) && ValidScope(scope) && ValidHash(hash) && Decides(winner)
    requires file in a && a[file].Regular? && a[file].hash != hash
    requires Listing(a, Shown(winner, a, scope), entriesA)
    requires var b := a[file := Regular(hash)]; Listing(b, Shown(winner, b, scope), entriesB)
    ensures Stream(header, entriesA) != Stream(header, entriesB) <==> file in Shown(winner, a, scope).Values
  {
    hide Shown, Stream, StrictlySorted, EntryFrom, Elements;
    var b := a[file := Regular(hash)];
    var table := Shown(winner, a, scope);
    SameShown(winner, a, scope, file, hash);
    ListingValid(winner, a, scope, entriesA);
    ListingValid(winner, b, scope, entriesB);
    StreamDecodable(header, entriesA, entriesB);
    SamePaths(entriesA, entriesB);
    TrimPathsTell(entriesA, entriesB);
    ListingsEqualExactly(a, table, b, table, entriesA, entriesB);
    forall p | p in table
      ensures EntryFrom(a, p, table[p]) == EntryFrom(b, p, table[p]) <==> table[p] != file
    {
      EntryChanges(a, file, hash, p, table[p]);
    }
  }

  lemma EntryChanges(a: Snapshot, file: string, hash: string, p: string, q: string)
    requires file in a && a[file].Regular? && a[file].hash != hash
    ensures EntryFrom(a, p, q) == EntryFrom(a[file := Regular(hash)], p, q) <==> q != file
  {
  }

  /** A content change moves no path and no source. */
  lemma SameShown(winner: Winner, a: Snapshot, scope: seq<string>, file: string, hash: string)
    requires file in a && a[file].Regular?
    ensures Shown(winner, a[file := Regular(hash)], scope) == Shown(winner, a, scope)
  {
    hide Table;
    SameTable(winner, a, SortStrings(scope), file, hash);
  }

  lemma {:induction false} SameTable(winner: Winner, a: Snapshot, ordered: seq<string>, file: string, hash: string)
    requires file in a && a[file].Regular?
    ensures Table(winner, a[file := Regular(hash)], ordered) == Table(winner, a, ordered)
  {
    if ordered != [] {
      var last := ordered[|ordered| - 1];
      SameTable(winner, a, ordered[..|ordered| - 1], file, hash);
      SameWalk(a, last, file, hash);
    }
  }

  lemma SameWalk(a: Snapshot, root: string, file: string, hash: string)
    requires file in a && a[file].Regular?
    ensures WalkFiles(a[file := Regular(hash)], root) == WalkFiles(a, root)
    ensures Walks(a[file := Regular(hash)], root) == Walks(a, root)
  {
    hide WalkedUnder, Normalize;
  }

  /** Lists with the same paths are equal once those are trimmed exactly when they are equal. */
  lemma {:induction false} TrimPathsTell(a: seq<Entry>, b: seq<Entry>)
    requires |a| == |b| && forall i :: 0 <= i < |a| ==> a[i].path == b[i].path
    ensures TrimPaths(a) == TrimPaths(b) <==> a == b
  {
    if a != [] {
      TrimPathsTell(a[1..], b[1..]);
      assert a == [a[0]] + a[1..] && b == [b[0]] + b[1..];
      assert TrimPaths(a)[0] == TrimPath(a[0]) && TrimPaths(a)[1..] == TrimPaths(a[1..]);
      assert TrimPaths(b)[0] == TrimPath(b[0]) && TrimPaths(b)[1..] == TrimPaths(b[1..]);
    }
  }

  /** Some path is last listed by a scope path that can give it nothing but this file. */
  ghost predicate Unshadowed(snapshot: Snapshot, scope: seq<string>, file: string) {
    exists p, s :: LastFor(snapshot, Elements(scope), p, s) && SoleSource(snapshot, s, p, file)
  }

  ghost predicate SoleSource(snapshot: Snapshot, s: string, p: string, file: string) {
    Gives(snapshot, s, p, file) && forall q :: Gives(snapshot, s, p, q) ==> q == file
  }

  /** A file's changes are certain to show, however meeting files are settled, exactly when it is not shadowed. */
  lemma ShownExactly(snapshot: Snapshot, scope: seq<string>, file: string)
    ensures (forall winner :: Decides(winner) ==> file in Shown(winner, snapshot, scope).Values)
            <==> Unshadowed(snapshot, scope, file)
  {
    hide Shown, SourceOf, LastFor, Decides, Gives;
    if Unshadowed(snapshot, scope, file) {
      forall winner | Decides(winner)
        ensures file in Shown(winner, snapshot, scope).Values
      {
        var p, s :| LastFor(snapshot, Elements(scope), p, s) && SoleSource(snapshot, s, p, file);
        ShownByLast(winner, snapshot, scope, p);
        assert p in KeysFor(snapshot, s) by { LastLists(snapshot, scope, p, s); }
        SourceGiven(winner, snapshot, s, p);
        assert Shown(winner, snapshot, scope)[p] == file;
      }
    }
    if forall winner :: Decides(winner) ==> file in Shown(winner, snapshot, scope).Values {
      var winner := Avoiding(file);
      AvoidingDecides(file);
      var table := Shown(winner, snapshot, scope);
      var p :| p in table && table[p] == file;
      ShownByLast(winner, snapshot, scope, p);
      var s :| LastFor(snapshot, Elements(scope), p, s);
      LastLists(snapshot, scope, p, s);
      AvoidedUnlessSole(snapshot, file, s, p);
    }
  }

  lemma LastLists(snapshot: Snapshot, scope: seq<string>, p: string, s: string)
    requires LastFor(snapshot, Elements(scope), p, s)
    ensures p in KeysFor(snapshot, s)
  {
  }

  /** Settles for any file but this one, where there is another. */
  ghost function Avoiding(file: string): Winner {
    (root: string, files: set<string>, p: string) => AnyBut(file, files, p)
  }

  ghost function AnyBut(file: string, files: set<string>, p: string): string {
    if q :| q in files && Normalize(q) == p && q != file then q else file
  }

  lemma AvoidingDecides(file: string)
    ensures Decides(Avoiding(file))
  {
    hide Normalize;
  }

  lemma AvoidedUnlessSole(snapshot: Snapshot, file: string, s: string, p: string)
    requires p in KeysFor(snapshot, s) && SourceOf(Avoiding(file), snapshot, s, p) == file
    ensures SoleSource(snapshot, s, p, file)
  {
    hide Normalize, WalkFiles;
    AvoidingDecides(file);
    SourceGiven(Avoiding(file), snapshot, s, p);
  }

  // ---------------------------------------------------------------- which files a scope covers

  /** One of the directories on the way is named .git. */
  ghost predicate UnderGit(rest: string) {
    || (exists after: string :: rest == ".git/" + after)
    || (exists before: string, after: string :: rest == before + "/.git/" + after)
  }

  /** A path is walked from a root exactly when it is below it, at any depth, with no .git directory in between. */
  lemma WalkedExactly(root: string, path: string)
    ensures WalkedUnder(root, path) <==> exists rest :: path == root + "/" + rest && !UnderGit(rest)
  {
    hide UnderGit, Split;
    if rest :| path == root + "/" + rest && !UnderGit(rest) {
      assert path == root + ['/'] + rest;
      SplitConcat(root, rest, '/');
      GitPieceExactly(rest);
    }
    if WalkedUnder(root, path) {
      PrefixIsPiecePrefix(path, root, '/');
      if path == root {
        assert false;
      }
      var rest := path[|root| + 1..];
      assert path == root + ['/'] + rest;
      SplitConcat(root, rest, '/');
      GitPieceExactly(rest);
      forall i | 0 <= i < |Split(rest, '/')| - 1
        ensures Split(rest, '/')[i] != ".git"
      {
        assert Split(path, '/')[|Split(root, '/')| + i] == Split(rest, '/')[i];
      }
      assert path == root + "/" + rest;
    }
  }

  lemma GitPieceExactly(rest: string)
    ensures UnderGit(rest) <==> exists i :: 0 <= i < |Split(rest, '/')| - 1 && Split(rest, '/')[i] == ".git"
  {
    hide Split;
    if UnderGit(rest) {
      GitAsPiece(rest);
    }
    if i :| 0 <= i < |Split(rest, '/')| - 1 && Split(rest, '/')[i] == ".git" {
      PieceAsGit(rest, i);
    }
  }

  lemma GitAsPiece(rest: string)
    requires UnderGit(rest)
    ensures exists i :: 0 <= i < |Split(rest, '/')| - 1 && Split(rest, '/')[i] == ".git"
  {
    hide Split;
    GitAlone();
    if after: string :| rest == ".git/" + after {
      assert rest == ".git" + ['/'] + after;
      SplitConcat(".git", after, '/');
      assert Split(rest, '/')[0] == ".git";
    } else {
      var before: string, after: string :| rest == before + "/.git/" + after;
      var inner := ".git" + ['/'] + after;
      SplitConcat(".git", after, '/');
      assert rest == before + ['/'] + inner;
      SplitConcat(before, inner, '/');
      assert Split(rest, '/')[|Split(before, '/')|] == ".git";
    }
  }

  lemma GitAlone()
    ensures Split(".git", '/') == [".git"]
  {
    assert ".git"[0] == '.' && ".git"[1] == 'g' && ".git"[2] == 'i' && ".git"[3] == 't';
    SplitPiece(".git", '/');
  }

  lemma PieceAsGit(rest: string, i: nat)
    requires i < |Split(rest, '/')| - 1 && Split(rest, '/')[i] == ".git"
    ensures UnderGit(rest)
  {
    hide Split;
    var pieces := Split(rest, '/');
    JoinSplit(rest, '/');
    var tail := Join(pieces[i + 1..], '/');
    JoinConcat([".git"], pieces[i + 1..], '/');
    assert Join([".git"], '/') == ".git";
    assert pieces[i..] == [".git"] + pieces[i + 1..];
    if i == 0 {
      assert pieces == pieces[i..];
      assert rest == ".git/" + tail;
    } else {
      var before := Join(pieces[..i], '/');
      JoinConcat(pieces[..i], pieces[i..], '/');
      assert pieces == pieces[..i] + pieces[i..];
      assert rest == before + "/.git/" + tail;
    }
  }

  /** File and directory names as the service writes them. */
  ghost predicate CanonicalNames(snapshot: Snapshot) {
    forall p :: p in snapshot ==> Canonical(p) && p != ""
  }

  /** A regular file strictly below the directory, with no .git directory in between. */
  ghost predicate FileBelow(snapshot: Snapshot, directory: string, file: string) {
    && file in snapshot && snapshot[file].Regular?
    && exists rest :: file == directory + "/" + rest && !UnderGit(rest)
  }

  lemma FoundExactly(snapshot: Snapshot, directory: string, file: string)
    requires CanonicalNames(snapshot)
    ensures file in WalkFiles(snapshot, directory) <==> FileBelow(snapshot, directory, file)
  {
    hide WalkedUnder, Normalize, UnderGit;
    WalkedExactly(directory, file);
  }

  /** The scope lists a path: itself, unless it is a directory with files, or a file below a scoped directory. */
  ghost predicate Lists(snapshot: Snapshot, scope: seq<string>, p: string) {
    || (p in scope && !(p in snapshot && snapshot[p].Directory? && exists q :: FileBelow(snapshot, p, q)))
    || (exists d :: d in scope && d in snapshot && snapshot[d].Directory? && FileBelow(snapshot, d, p))
  }

  /** The listed paths, without reference to the walk. */
  lemma ListedExactly(winner: Winner, snapshot: Snapshot, scope: seq<string>, p: string)
    requires CanonicalNames(snapshot)
    ensures p in Shown(winner, snapshot, scope) <==> Lists(snapshot, scope, p)
  {
    hide Shown, SourceOf, WalkFiles, FileBelow, Less, CanonicalNames, Elements;
    ShownByLast(winner, snapshot, scope, p);
    forall s
      ensures p in KeysFor(snapshot, s) <==>
                if s in snapshot && snapshot[s].Directory? && exists q :: FileBelow(snapshot, s, q)
                then FileBelow(snapshot, s, p) else p == s
    {
      KeysExactly(snapshot, s, p);
    }
    assert forall s :: s in scope <==> s in Elements(scope) by { ElementsAre(scope); }
    if s :| s in scope && p in KeysFor(snapshot, s) {
      var last := LastOf(snapshot, Elements(scope), p, s);
    }
  }

  lemma ElementsAre(xs: seq<string>)
    ensures forall x :: x in xs <==> x in Elements(xs)
  {
  }

  lemma KeysExactly(snapshot: Snapshot, s: string, p: string)
    requires CanonicalNames(snapshot)
    ensures p in KeysFor(snapshot, s) <==>
              if s in snapshot && snapshot[s].Directory? && exists q :: FileBelow(snapshot, s, q)
              then FileBelow(snapshot, s, p) else p == s
  {
    hide WalkFiles, Normalize, UnderGit;
    forall q
      ensures q in WalkFiles(snapshot, s) <==> FileBelow(snapshot, s, q)
      ensures q in WalkFiles(snapshot, s) ==> Normalize(q) == q
    {
      FoundExactly(snapshot, s, q);
    }
    if q :| FileBelow(snapshot, s, q) {
      assert q in WalkFiles(snapshot, s);
    }
  }

  /**
   * With canonical names, changing a regular file's content changes the stream exactly when the
   * scope names the file or a directory above it, at any depth, with no .git directory in between.
   */
  lemma FileChangeShowsExactly(header: seq<string>, winner: Winner, a: Snapshot, scope: seq<string>, file: string, hash: string,
                               entriesA: seq<Entry>, entriesB: seq<Entry>)
    requires ValidSnapshot(a) && CanonicalNames(a) && ValidScope(scope) && ValidHash(hash) && Decides(winner)
    requires file in a && a[file].Regular? && a[file].hash != hash
    requires Listing(a, Shown(winner, a, scope), entriesA)
    requires var b := a[file := Regular(hash)]; Listing(b, Shown(winner, b, scope), entriesB)
    ensures Stream(header, entriesA) != Stream(header, entriesB) <==>
            file in scope
            || exists d, rest :: d in scope && d in a && a[d].Directory? && file == d + "/" + rest && !UnderGit(rest)
  {
    hide Shown, Stream, Listing, Lists, WalkFiles, UnderGit;
    ChangeShowsExactly(header, winner, a, scope, file, hash, entriesA, entriesB);
    NamesAreWalked(a, scope);
    CanonicalShowsItself(winner, a, scope);
    ListedExactly(winner, a, scope, file);
    assert file in Shown(winner, a, scope).Values <==> file in Shown(winner, a, scope);
    FileListed(a, scope, file);
  }

  lemma FileListed(a: Snapshot, scope: seq<string>, file: string)
    requires file in a && a[file].Regular?
    ensures Lists(a, scope, file) <==>
            file in scope
            || exists d, rest :: d in scope && d in a && a[d].Directory? && file == d + "/" + rest && !UnderGit(rest)
  {
    hide UnderGit;
    if d, rest :| d in scope && d in a && a[d].Directory? && file == d + "/" + rest && !UnderGit(rest) {
      assert FileBelow(a, d, file);
    }
  }

  lemma NamesAreWalked(snapshot: Snapshot, scope: seq<string>)
    requires CanonicalNames(snapshot)
    ensures CanonicalWalks(snapshot, scope)
  {
    hide WalkedUnder, Normalize;
  }

  // ---------------------------------------------------------------- names that meet

  /** A directory d/a with a file b, and beside it in d a file named a\b. */
  function MeetingNames(slash: string, backslash: string): Snapshot {
    map["d" := Directory, "d/a" := Directory, "d/a/b" := Regular(slash), "d/a\\b" := Regular(backslash)]
  }

  /** Both are listed as d/a/b, so one of them is hidden and can change unseen. */
  lemma MeetingNamesHide(winner: Winner, slash: string, backslash: string)
    requires Decides(winner)
    ensures var shown := Shown(winner, MeetingNames(slash, backslash), ["d"]);
            shown.Keys == {"d/a/b"} && ("d/a/b" in shown.Values <==> "d/a\\b" !in shown.Values)
  {
    hide Normalize, SourceOf, Less, WalkedUnder;
    var snapshot := MeetingNames(slash, backslash);
    MeetingWalk(slash, backslash);
    MeetingResults();
    assert KeysFor(snapshot, "d") == {"d/a/b"};
    OneListed(winner, snapshot, "d", "d/a/b");
    SourceGiven(winner, snapshot, "d", "d/a/b");
    assert |"d/a/b"| == |"d/a\\b"| && "d/a/b"[3] != "d/a\\b"[3];
  }

  lemma OneListed(winner: Winner, snapshot: Snapshot, s: string, p: string)
    requires KeysFor(snapshot, s) == {p}
    ensures Shown(winner, snapshot, [s]) == map[p := SourceOf(winner, snapshot, s, p)]
  {
    hide KeysFor, SourceOf;
    OnlyOne(s);
    assert [s][..0] == [] && Table(winner, snapshot, []) == map[];
  }

  lemma OnlyOne(x: string)
    ensures SortStrings([x]) == [x]
  {
    assert [x][..0] == [] && SortStrings([]) == [];
    SortedUnique(SortStrings([x]), [x]);
  }

  lemma MeetingWalk(slash: string, backslash: string)
    ensures WalkFiles(MeetingNames(slash, backslash), "d") == {"d/a/b", "d/a\\b"}
    ensures WalkedUnder("d", "d/a/b") && WalkedUnder("d", "d/a\\b")
  {
    hide Normalize, Split;
    MeetingResults();
    SplitPiece("d", '/');
    SplitPiece("a", '/');
    SplitPiece("b", '/');
    SplitPiece("a\\b", '/');
    SplitConcat("a", "b", '/');
    SplitConcat("d", "a/b", '/');
    SplitConcat("d", "a\\b", '/');
    assert "a" + ['/'] + "b" == "a/b" && "d" + ['/'] + "a/b" == "d/a/b" && "d" + ['/'] + "a\\b" == "d/a\\b";
    assert Split("d/a/b", '/') == ["d", "a", "b"] && Split("d/a\\b", '/') == ["d", "a\\b"];
  }

  lemma MeetingResults()
    ensures Normalize("d/a/b") == "d/a/b" && Normalize("d/a\\b") == "d/a/b"
  {
    hide Split, Trim, IsSpace, Trimmed;
    ThreeSegments();
    assert "d/a/b"[0] == 'd' && "d/a/b"[1] == '/';
    PlainEnds();
    CanonicalIfClean("d/a/b");
    SlashesInName();
    SlashedAlike("d/a\\b", "d/a/b");
  }

  lemma SlashedAlike(a: string, b: string)
    requires Trimmed(a) && Trimmed(b) && a != "" && b != "" && WithSlashes(a) == b && '\\' !in b
    ensures Normalize(a) == Normalize(b)
  {
    hide Clean, Absolute, Trim;
    TrimShape(a);
    TrimShape(b);
  }

  lemma ThreeSegments()
    ensures Split("d/a/b", '/') == ["d", "a", "b"]
  {
    hide Split;
    SplitPiece("d", '/');
    SplitPiece("a", '/');
    SplitPiece("b", '/');
    SplitConcat("a", "b", '/');
    SplitConcat("d", "a/b", '/');
    assert "a" + ['/'] + "b" == "a/b" && "d" + ['/'] + "a/b" == "d/a/b";
  }

  lemma PlainEnds()
    ensures Trimmed("d/a/b") && Trimmed("d/a\\b")
  {
    assert "d/a/b"[0] == 'd' && "d/a/b"[4] == 'b' && "d/a\\b"[0] == 'd' && "d/a\\b"[4] == 'b';
  }

  lemma {:induction false} SlashesConcat(a: string, b: string)
    ensures WithSlashes(a + b) == WithSlashes(a) + WithSlashes(b)
  {
    if a == [] {
      assert a + b == b;
    } else {
      assert (a + b)[1..] == a[1..] + b;
      SlashesConcat(a[1..], b);
    }
  }

  /** One backslash among other characters. */
  lemma OneBackslash(before: string, after: string)
    requires '\\' !in before && '\\' !in after
    ensures WithSlashes(before + "\\" + after) == before + "/" + after
  {
    hide WithSlashes;
    SlashesConcat(before + "\\", after);
    SlashesConcat(before, "\\");
    SlashOf();
  }

  lemma SlashOf()
    ensures WithSlashes("\\") == "/"
  {
    assert "\\"[1..] == "";
  }

  lemma SlashesInName()
    ensures WithSlashes("d/a\\b") == "d/a/b"
  {
    hide WithSlashes;
    assert "d/a"[0] == 'd' && "d/a"[1] == '/' && "d/a"[2] == 'a' && "b"[0] == 'b';
    OneBackslash("d/a", "b");
    assert "d/a" + "\\" + "b" == "d/a\\b" && "d/a" + "/" + "b" == "d/a/b";
  }

  function SlashAlone(hash: string): Snapshot {
    map["d" := Directory, "d/a" := Directory, "d/a/b" := Regular(hash)]
  }

  function BackslashAlone(hash: string): Snapshot {
    map["d" := Directory, "d/a\\b" := Regular(hash)]
  }

  /** A project with only the one and a project with only the other give the same stream. */
  lemma MeetingNamesCollide(header: seq<string>, winner: Winner, hash: string, entriesA: seq<Entry>, entriesB: seq<Entry>)
    requires Decides(winner)
    requires Listing(SlashAlone(hash), Shown(winner, SlashAlone(hash), ["d"]), entriesA)
    requires Listing(BackslashAlone(hash), Shown(winner, BackslashAlone(hash), ["d"]), entriesB)
    ensures Stream(header, entriesA) == Stream(header, entriesB)
  {
    hide *;
    AloneView(winner, hash);
    ListingsEqualExactly(SlashAlone(hash), Shown(winner, SlashAlone(hash), ["d"]),
                         BackslashAlone(hash), Shown(winner, BackslashAlone(hash), ["d"]), entriesA, entriesB);
  }

  lemma AloneView(winner: Winner, hash: string)
    requires Decides(winner)
    ensures SameView(SlashAlone(hash), Shown(winner, SlashAlone(hash), ["d"]), BackslashAlone(hash), Shown(winner, BackslashAlone(hash), ["d"]))
  {
    hide Shown, Decides, EntryFrom, WalkedUnder, Normalize;
    MeetingResults();
    MeetingWalk(hash, hash);
    OneWalked(winner, SlashAlone(hash), "d/a/b", "d/a/b", hash);
    OneWalked(winner, BackslashAlone(hash), "d/a\\b", "d/a/b", hash);
  }

  lemma OneWalked(winner: Winner, snapshot: Snapshot, q: string, p: string, hash: string)
    requires Decides(winner) && "d" in snapshot && snapshot["d"] == Directory && q in snapshot && snapshot[q] == Regular(hash)
    requires forall other :: other in snapshot && snapshot[other].Regular? ==> other == q
    requires WalkedUnder("d", q) && Normalize(q) == p != ""
    ensures Shown(winner, snapshot, ["d"]) == map[p := q]
    ensures EntryFrom(snapshot, p, q) == Entry(p, File, hash)
  {
    hide Normalize, WalkedUnder, Shown;
    assert WalkFiles(snapshot, "d") == {q};
    assert KeysFor(snapshot, "d") == {p};
    OneListed(winner, snapshot, "d", p);
    SourceGiven(winner, snapshot, "d", p);
  }

  function SpaceBackslash(hash: string): Snapshot {
    map["d" := Directory, "d/x \\" := Regular(hash)]
  }

  function NoSpace(hash: string): Snapshot {
    map["d" := Directory, "d/x" := Regular(hash)]
  }

  /** A file named x, space, backslash is listed with an outer space, and its project has the stream of one with a file x. */
  lemma OuterSpaceListed(header: seq<string>, winner: Winner, hash: string, entriesA: seq<Entry>, entriesB: seq<Entry>)
    requires Decides(winner) && ValidHash(hash)
    requires Listing(SpaceBackslash(hash), Shown(winner, SpaceBackslash(hash), ["d"]), entriesA)
    requires Listing(NoSpace(hash), Shown(winner, NoSpace(hash), ["d"]), entriesB)
    ensures entriesA != entriesB && Stream(header, entriesA) == Stream(header, entriesB)
  {
    hide Normalize, WalkedUnder, Shown, Stream, Listing, EntryFrom;
    SpacedName();
    PlainName();
    OneWalked(winner, SpaceBackslash(hash), "d/x \\", "d/x ", hash);
    OneWalked(winner, NoSpace(hash), "d/x", "d/x", hash);
    SingleListing(SpaceBackslash(hash), "d/x ", "d/x \\", entriesA);
    SingleListing(NoSpace(hash), "d/x", "d/x", entriesB);
    assert "d/x" + " " == "d/x " && |"d/x"| != |"d/x "|;
    assert NUL !in "d/x" by { assert "d/x"[0] == 'd' && "d/x"[1] == '/' && "d/x"[2] == 'x'; }
    OuterSpaceCollides(header, "d/x", hash);
  }

  lemma SingleListing(snapshot: Snapshot, p: string, q: string, entries: seq<Entry>)
    requires Listing(snapshot, map[p := q], entries)
    ensures entries == [EntryFrom(snapshot, p, q)]
  {
    hide EntryFrom;
    OnlyOne(p);
    SortedUnique(PathsOf(entries), [p]);
    assert |PathsOf(entries)| == |entries|;
    assert EntryOk(snapshot, map[p := q], entries[0]);
  }

  lemma SpacedName()
    ensures Normalize("d/x \\") == "d/x " && WalkedUnder("d", "d/x \\")
  {
    hide Normalize, WalkedUnder, Trimmed;
    SpacedWalk();
    SpacedResult();
    SpacedSlashes();
    SpacedEnds();
    SlashedAlike("d/x \\", "d/x /");
  }

  lemma SpacedWalk()
    ensures WalkedUnder("d", "d/x \\")
  {
    hide Split;
    SplitPiece("d", '/');
    SplitPiece("x \\", '/');
    SplitConcat("d", "x \\", '/');
    assert "d" + ['/'] + "x \\" == "d/x \\";
    assert Split("d/x \\", '/') == ["d", "x \\"];
  }

  lemma SpacedEnds()
    ensures Trimmed("d/x \\") && Trimmed("d/x /") && "d/x \\" != "" && "d/x /" != "" && '\\' !in "d/x /"
  {
    assert "d/x /"[0] == 'd' && "d/x /"[4] == '/' && "d/x \\"[0] == 'd' && "d/x \\"[4] == '\\';
  }

  lemma SpacedResult()
    ensures Normalize("d/x /") == "d/x "
  {
    hide Split, Normalize, CleanSegments, Trimmed, Join;
    SpacedStack();
    SpacedEnds();
    SpacedJoins();
    assert "d/x /"[0] == 'd' && "d/x /"[1] == '/';
    NormalizeByStack("d/x /", ["d", "x ", ""], ["d", "x "]);
  }

  lemma SpacedJoins()
    ensures Join(["d", "x ", ""], '/') == "d/x /" && Join(["d", "x "], '/') == "d/x "
  {
    assert ["d", "x ", ""][1..] == ["x ", ""] && ["x ", ""][1..] == [""] && ["d", "x "][1..] == ["x "];
    assert Join([""], '/') == "" && Join(["x "], '/') == "x ";
    assert Join(["x ", ""], '/') == "x /";
  }

  lemma SpacedStack()
    ensures CleanSegments(false, ["d", "x ", ""]) == ["d", "x "]
  {
    assert ["d", "x ", ""][..2] == ["d", "x "] && ["d", "x "][..1] == ["d"] && ["d"][..0] == [];
    assert CleanSegments(false, ["d"]) == ["d"];
    assert CleanSegments(false, ["d", "x "]) == ["d", "x "];
  }

  lemma SpacedSlashes()
    ensures WithSlashes("d/x \\") == "d/x /"
  {
    hide WithSlashes;
    assert "d/x "[0] == 'd' && "d/x "[1] == '/' && "d/x "[2] == 'x' && "d/x "[3] == ' ';
    OneBackslash("d/x ", "");
    assert "d/x " + "\\" + "" == "d/x \\" && "d/x " + "/" + "" == "d/x /";
  }

  lemma PlainName()
    ensures Normalize("d/x") == "d/x" && WalkedUnder("d", "d/x")
  {
    hide Split, Normalize, Trim;
    SplitPiece("d", '/');
    SplitPiece("x", '/');
    SplitConcat("d", "x", '/');
    assert "d" + ['/'] + "x" == "d/x";
    assert "d/x"[0] == 'd' && "d/x"[1] == '/' && "d/x"[2] == 'x';
    CanonicalIfClean("d/x");
  }
}
