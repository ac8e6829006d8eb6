/**
 When the order of a ruleset file does not matter (internal/service/backend/ruleset.go, lines
 192-267).  Derived ids all have one length, so the candidates of different ones never meet.
 */
module RuleOrders {
  import opened Wrappers
  import opened Strings
  import opened Decimal
  import opened RuleIds
  import opened Pigeonhole

  predicate Own(raw: RawRule) {
    Trim(raw.id) != ""
  }

  predicate HasOwn(raw: RawRule, id: string) {
    Own(raw) && Trim(raw.id) == id
  }

  predicate Derives(raw: RawRule, base: string) {
    !Own(raw) && raw.derived == base
  }

  /** How many rules of the file have this id as their own. */
  function Owners(raws: seq<RawRule>, id: string): nat {
    Count(raws, (raw: RawRule) => HasOwn(raw, id))
  }

  /** How many rules of the file derive their id from this base. */
  function Derivers(raws: seq<RawRule>, base: string): nat {
    Count(raws, (raw: RawRule) => Derives(raw, base))
  }

  ghost predicate RuleOk(raw: RawRule) {
    Summary(raw) != "" && raw.enforcementOk && (Own(raw) ==> ValidId(Trim(raw.id)))
  }

  /** Own ids differ, and none is among the first candidates of a base, as many as rules derive from it. */
  ghost predicate OrderFree(raws: seq<RawRule>) {
    && (forall raw :: raw in raws ==> RuleOk(raw))
    && (forall id :: Owners(raws, id) <= 1)
    && (forall base, k: nat :: k < Derivers(raws, base) ==> Owners(raws, Candidate(base, k)) == 0)
  }

  ghost predicate SameLengths(raws: seq<RawRule>) {
    forall a, b :: a in raws && b in raws ==> |a.derived| == |b.derived|
  }

  // ---------------------------------------------------------------- counting

  lemma CountOne(raw: RawRule, which: RawRule -> bool)
    ensures Count([raw], which) == if which(raw) then 1 else 0
  {
    assert [raw][..|[raw]| - 1] == [];
    assert Count([], which) == 0;
  }

  lemma CountSplit(raws: seq<RawRule>, i: nat, which: RawRule -> bool)
    requires i < |raws|
    ensures Count(raws, which) == Count(raws[..i], which) + (if which(raws[i]) then 1 else 0) + Count(raws[i + 1..], which)
  {
    hide Count;
    CountConcat(raws[..i], [raws[i]], which);
    CountConcat(raws[..i] + [raws[i]], raws[i + 1..], which);
    CountOne(raws[i], which);
    assert raws == raws[..i] + [raws[i]] + raws[i + 1..];
  }

  /** The count does not depend on the order. */
  lemma {:induction false} CountOfMultiset(a: seq<RawRule>, b: seq<RawRule>, which: RawRule -> bool)
    requires multiset(a) == multiset(b)
    ensures Count(a, which) == Count(b, which)
  {
    hide Count;
    SameLength(a, b);
    if a != [] {
      var i := SomeIndex(b, a[|a| - 1]);
      var x, front := a[|a| - 1], a[..|a| - 1];
      var others := b[..i] + b[i + 1..];
      WithoutOne(a, |a| - 1);
      WithoutOne(b, i);
      assert a[..|a| - 1] + a[|a| - 1 + 1..] == front;
      CountOfMultiset(front, others, which);
      CountSplit(a, |a| - 1, which);
      CountSplit(b, i, which);
      CountConcat(b[..i], b[i + 1..], which);
      NoCount(a[|a| - 1 + 1..], which);
    }
  }

  lemma NoCount(raws: seq<RawRule>, which: RawRule -> bool)
    requires raws == []
    ensures Count(raws, which) == 0
  {
  }

  lemma SomeIndex(b: seq<RawRule>, x: RawRule) returns (i: nat)
    requires x in multiset(b)
    ensures i < |b| && b[i] == x
  {
    i :| 0 <= i < |b| && b[i] == x;
  }

  lemma WithoutOne(b: seq<RawRule>, i: nat)
    requires i < |b|
    ensures multiset(b[..i] + b[i + 1..]) == multiset(b) - multiset{b[i]}
  {
    assert b == b[..i] + [b[i]] + b[i + 1..];
  }

  lemma SameMembers(a: seq<RawRule>, b: seq<RawRule>)
    requires multiset(a) == multiset(b)
    ensures forall raw :: raw in a <==> raw in b
  {
    forall raw
      ensures raw in a <==> raw in b
    {
      assert raw in multiset(a) <==> raw in multiset(b);
    }
  }

  lemma OrderFreeForAll(raws: seq<RawRule>, order: seq<RawRule>)
    requires OrderFree(raws) && SameLengths(raws) && multiset(order) == multiset(raws)
    ensures OrderFree(order) && SameLengths(order)
  {
    hide Count, RuleOk;
    SameMembers(order, raws);
    forall id
      ensures Owners(order, id) == Owners(raws, id)
    {
      CountOfMultiset(order, raws, (raw: RawRule) => HasOwn(raw, id));
    }
    forall base
      ensures Derivers(order, base) == Derivers(raws, base)
    {
      CountOfMultiset(order, raws, (raw: RawRule) => Derives(raw, base));
    }
  }

  // ---------------------------------------------------------------- accepted in every order

  /** Bases of one length have no candidate in common. */
  lemma CandidatesApart(a: string, b: string, i: nat, j: nat)
    requires |a| == |b| && Candidate(a, i) == Candidate(b, j)
    ensures a == b && i == j
  {
    assert Candidate(a, i)[..|a|] == a && Candidate(b, j)[..|b|] == b;
    if i < j {
      CandidatesDistinct(a, i, j);
    } else if j < i {
      CandidatesDistinct(a, j, i);
    }
  }

  /** The ids given so far: the own ones, and the first candidates of every base. */
  ghost predicate GivenIds(raws: seq<RawRule>, ids: set<string>) {
    forall id :: id in ids <==> Owners(raws, id) > 0 || IsCandidate(raws, id)
  }

  ghost predicate IsCandidate(raws: seq<RawRule>, id: string) {
    exists base, k: nat :: k < Derivers(raws, base) && id == Candidate(base, k)
  }

  lemma CountsNext(raws: seq<RawRule>, i: nat)
    requires i < |raws|
    ensures forall id :: Owners(raws[..i + 1], id) == Owners(raws[..i], id) + if HasOwn(raws[i], id) then 1 else 0
    ensures forall base :: Derivers(raws[..i + 1], base) == Derivers(raws[..i], base) + if Derives(raws[i], base) then 1 else 0
  {
    assert raws[..i + 1][..i] == raws[..i];
  }

  lemma CountsWithin(raws: seq<RawRule>, i: nat)
    requires i < |raws|
    ensures forall id :: Owners(raws[..i], id) + (if HasOwn(raws[i], id) then 1 else 0) <= Owners(raws, id)
    ensures forall base :: Derivers(raws[..i], base) + (if Derives(raws[i], base) then 1 else 0) <= Derivers(raws, base)
  {
    hide Count;
    forall id
      ensures Owners(raws[..i], id) + (if HasOwn(raws[i], id) then 1 else 0) <= Owners(raws, id)
    {
      CountSplit(raws, i, (raw: RawRule) => HasOwn(raw, id));
    }
    forall base
      ensures Derivers(raws[..i], base) + (if Derives(raws[i], base) then 1 else 0) <= Derivers(raws, base)
    {
      CountSplit(raws, i, (raw: RawRule) => Derives(raw, base));
    }
  }

  lemma {:induction false} DeriverExists(raws: seq<RawRule>, base: string)
    requires Derivers(raws, base) > 0
    ensures exists raw :: raw in raws && raw.derived == base
  {
    var n := |raws| - 1;
    if Derives(raws[n], base) {
      assert raws[n] in raws;
    } else {
      DeriverExists(raws[..n], base);
    }
  }

  /** The next rule of an order-free file gets its own id, or the next candidate of its base; either is free. */
  lemma NextGiven(raws: seq<RawRule>, i: nat, ids: set<string>)
    requires OrderFree(raws) && SameLengths(raws) && i < |raws| && GivenIds(raws[..i], ids)
    ensures Own(raws[i]) ==> Trim(raws[i].id) !in ids && NextId(raws[i], ids) == Trim(raws[i].id)
    ensures !Own(raws[i]) ==> NextId(raws[i], ids) == Candidate(raws[i].derived, Derivers(raws[..i], raws[i].derived))
  {
    hide Candidate, Owners, Derivers, RuleOk, Trim;
    CountsWithin(raws, i);
    var raw := raws[i];
    if Own(raw) {
      var id := Trim(raw.id);
      assert Owners(raws[..i], id) == 0 && Owners(raws, id) == 1;
    } else {
      FreeCandidate(raws, i, ids);
      NextIdIsFirstFree(raw, ids, Derivers(raws[..i], raw.derived));
    }
  }

  lemma FreeCandidate(raws: seq<RawRule>, i: nat, ids: set<string>)
    requires OrderFree(raws) && SameLengths(raws) && i < |raws| && GivenIds(raws[..i], ids) && !Own(raws[i])
    ensures FirstFree(raws[i].derived, ids, Derivers(raws[..i], raws[i].derived))
  {
    hide Candidate, Owners, Derivers, RuleOk, Own;
    var d := raws[i].derived;
    var k := Derivers(raws[..i], d);
    CountsWithin(raws, i);
    assert Derives(raws[i], d) by { DerivesOwnBase(raws[i]); }
    assert Owners(raws, Candidate(d, k)) == 0;
    if IsCandidate(raws[..i], Candidate(d, k)) {
      var base, j: nat :| j < Derivers(raws[..i], base) && Candidate(d, k) == Candidate(base, j);
      DeriverExists(raws[..i], base);
      var other :| other in raws[..i] && other.derived == base;
      assert other in raws && raws[i] in raws;
      CandidatesApart(d, base, k, j);
    }
    forall j: nat | j < k
      ensures Candidate(d, j) in ids
    {
      assert IsCandidate(raws[..i], Candidate(d, j));
    }
  }

  lemma DerivesOwnBase(raw: RawRule)
    ensures !Own(raw) ==> Derives(raw, raw.derived)
  {
  }

  lemma {:induction false} GivenSoFar(raws: seq<RawRule>, i: nat)
    requires OrderFree(raws) && SameLengths(raws) && i <= |raws|
    ensures GivenIds(raws[..i], Elements(AssignedIds(raws[..i])))
  {
    hide Candidate, Owners, Derivers, RuleOk, NextId, AssignedIds, OrderFree, Elements, Trim;
    if i == 0 {
      NoneGiven(raws);
    } else {
      GivenSoFar(raws, i - 1);
      var ids := Elements(AssignedIds(raws[..i - 1]));
      NextGiven(raws, i - 1, ids);
      RulesOfNext("", "", raws, i - 1);
      ElementsAppend(AssignedIds(raws[..i - 1]), NextId(raws[i - 1], ids));
      CountsNext(raws, i - 1);
      GivenNext(raws, i - 1, ids, NextId(raws[i - 1], ids));
    }
  }

  lemma NoneGiven(raws: seq<RawRule>)
    ensures GivenIds(raws[..0], Elements(AssignedIds(raws[..0])))
  {
    assert raws[..0] == [];
  }

  lemma GivenNext(raws: seq<RawRule>, i: nat, ids: set<string>, next: string)
    requires i < |raws| && GivenIds(raws[..i], ids)
    requires Own(raws[i]) ==> next == Trim(raws[i].id)
    requires !Own(raws[i]) ==> next == Candidate(raws[i].derived, Derivers(raws[..i], raws[i].derived))
    ensures GivenIds(raws[..i + 1], ids + {next})
  {
    hide Candidate, Owners, Derivers, Trim;
    CountsNext(raws, i);
    forall id
      ensures id in ids + {next} <==> Owners(raws[..i + 1], id) > 0 || IsCandidate(raws[..i + 1], id)
    {
      if IsCandidate(raws[..i], id) {
        var base, k: nat :| k < Derivers(raws[..i], base) && id == Candidate(base, k);
        assert k < Derivers(raws[..i + 1], base);
      }
      if IsCandidate(raws[..i + 1], id) {
        var base, k: nat :| k < Derivers(raws[..i + 1], base) && id == Candidate(base, k);
        assert k < Derivers(raws[..i], base) || (Derives(raws[i], base) && k == Derivers(raws[..i], base));
      }
      if id == next && !Own(raws[i]) {
        assert Derivers(raws[..i], raws[i].derived) < Derivers(raws[..i + 1], raws[i].derived);
      }
    }
  }

  lemma OrderFreeParses(raws: seq<RawRule>)
    requires OrderFree(raws) && SameLengths(raws)
    ensures Parses(raws)
  {
    hide Owners, Derivers, NextId, AssignedIds, Candidate, Elements, Trim, Summary, ValidId, GivenIds;
    forall i | 0 <= i < |raws|
      ensures Acceptable(raws, i)
    {
      GivenSoFar(raws, i);
      NextGiven(raws, i, Elements(AssignedIds(raws[..i])));
      assert raws[i] in raws && RuleOk(raws[i]);
    }
  }

  // ---------------------------------------------------------------- refused in some order

  lemma {:induction false} AssignedPrefix(raws: seq<RawRule>, i: nat)
    requires i <= |raws|
    ensures AssignedIds(raws[..i]) == AssignedIds(raws)[..i]
  {
    hide NextId;
    if i == |raws| {
      assert raws[..i] == raws;
    } else {
      var front := raws[..|raws| - 1];
      AssignedPrefix(front, i);
      assert front[..i] == raws[..i];
    }
  }

  lemma OwnIsAssigned(raws: seq<RawRule>, i: nat)
    requires i < |raws| && Own(raws[i])
    ensures AssignedIds(raws)[i] == Trim(raws[i].id)
  {
    AssignedPrefix(raws, i + 1);
    RulesOfNext("", "", raws, i);
  }

  /** An own id given earlier is refused. */
  lemma TakenIsRefused(raws: seq<RawRule>, i: nat, j: nat)
    requires i < j < |raws| && Own(raws[j]) && AssignedIds(raws)[i] == Trim(raws[j].id)
    ensures !Parses(raws)
  {
    hide AssignedIds, Trim;
    AssignedPrefix(raws, j);
    assert AssignedIds(raws[..j])[i] in AssignedIds(raws[..j]);
    assert !Acceptable(raws, j);
  }

  lemma {:induction false} TwoOwners(raws: seq<RawRule>, id: string) returns (i: nat, j: nat)
    requires Owners(raws, id) > 1
    ensures i < j < |raws| && HasOwn(raws[i], id) && HasOwn(raws[j], id)
  {
    var n := |raws| - 1;
    if HasOwn(raws[n], id) {
      i := SomeOwner(raws[..n], id);
      j := n;
    } else {
      i, j := TwoOwners(raws[..n], id);
    }
  }

  lemma {:induction false} SomeOwner(raws: seq<RawRule>, id: string) returns (i: nat)
    requires Owners(raws, id) > 0
    ensures i < |raws| && HasOwn(raws[i], id)
  {
    var n := |raws| - 1;
    if HasOwn(raws[n], id) {
      i := n;
    } else {
      i := SomeOwner(raws[..n], id);
    }
  }

  function Those(raws: seq<RawRule>, base: string, deriving: bool): seq<RawRule> {
    if raws == [] then []
    else
      var rest := Those(raws[..|raws| - 1], base, deriving);
      if Derives(raws[|raws| - 1], base) == deriving then rest + [raws[|raws| - 1]] else rest
  }

  lemma {:induction false} ThoseMeaning(raws: seq<RawRule>, base: string)
    ensures |Those(raws, base, true)| == Derivers(raws, base)
    ensures forall i :: 0 <= i < |Those(raws, base, true)| ==> Derives(Those(raws, base, true)[i], base)
    ensures forall raw :: raw in raws && !Derives(raw, base) ==> raw in Those(raws, base, false)
    ensures multiset(Those(raws, base, true) + Those(raws, base, false)) == multiset(raws)
  {
    hide Derives;
    if raws != [] {
      var n := |raws| - 1;
      ThoseMeaning(raws[..n], base);
      assert raws == raws[..n] + [raws[n]];
    }
  }

  /** Rules that all derive from one base get it, then it with the suffixes -2, -3 and so on. */
  lemma SuffixesInTurn(raws: seq<RawRule>, base: string)
    requires forall i :: 0 <= i < |raws| ==> Trim(raws[i].id) == "" && raws[i].derived == base
    ensures forall i :: 0 <= i < |raws| ==> AssignedIds(raws)[i] == if i == 0 then base else base + "-" + Itoa(i + 1)
  {
    hide AssignedIds, Trim;
    DerivedInTurn(raws, base);
  }

  /** Rules that all derive from one base get its candidates in turn. */
  lemma {:induction false} DerivedInTurn(raws: seq<RawRule>, base: string)
    requires forall i :: 0 <= i < |raws| ==> Derives(raws[i], base)
    ensures forall i :: 0 <= i < |raws| ==> AssignedIds(raws)[i] == Candidate(base, i)
  {
    hide Candidate, Trim, AssignedIds, NextId, Derives, RulesOf, RuleOf, Elements;
    if raws != [] {
      var n := |raws| - 1;
      DerivedInTurn(raws[..n], base);
      RulesOfNext("", "", raws, n);
      assert raws[..n + 1] == raws;
      NextInTurn(raws[n], base, AssignedIds(raws[..n]));
    }
  }

  lemma NextInTurn(raw: RawRule, base: string, ids: seq<string>)
    requires Derives(raw, base) && forall i :: 0 <= i < |ids| ==> ids[i] == Candidate(base, i)
    ensures NextId(raw, Elements(ids)) == Candidate(base, |ids|)
  {
    hide Candidate, NextId;
    forall j | 0 <= j < |ids|
      ensures Candidate(base, j) in Elements(ids)
    {
      assert ids[j] in ids;
    }
    if Candidate(base, |ids|) in Elements(ids) {
      var i :| 0 <= i < |ids| && ids[i] == Candidate(base, |ids|);
      CandidatesDistinct(base, i, |ids|);
    }
    NextIdIsFirstFree(raw, Elements(ids), |ids|);
  }

  /** With the rules of a base first, an own id among their candidates is refused. */
  lemma DerivedFirstRefused(raws: seq<RawRule>, base: string, k: nat) returns (order: seq<RawRule>)
    requires k < Derivers(raws, base) && Owners(raws, Candidate(base, k)) > 0
    ensures multiset(order) == multiset(raws) && !Parses(order)
  {
    hide Candidate, AssignedIds, Trim, Those, Parses;
    var first, rest := Those(raws, base, true), Those(raws, base, false);
    ThoseMeaning(raws, base);
    order := first + rest;
    var o := SomeOwner(raws, Candidate(base, k));
    assert raws[o] in raws && raws[o] in rest;
    var r :| 0 <= r < |rest| && rest[r] == raws[o];
    DerivedInTurn(first, base);
    assert order[..|first|] == first;
    AssignedPrefix(order, |first|);
    assert AssignedIds(order)[k] == AssignedIds(first)[k] == Candidate(base, k);
    assert order[|first| + r] == raws[o];
    TakenIsRefused(order, k, |first| + r);
  }

  lemma AcceptedIsOrderFree(raws: seq<RawRule>)
    requires forall order :: multiset(order) == multiset(raws) ==> Parses(order)
    ensures OrderFree(raws)
  {
    hide Candidate, Owners, Derivers, Trim, Summary, ValidId, AssignedIds;
    assert Parses(raws);
    forall raw | raw in raws
      ensures RuleOk(raw)
    {
      var i :| 0 <= i < |raws| && raws[i] == raw;
      assert Acceptable(raws, i);
    }
    forall id
      ensures Owners(raws, id) <= 1
    {
      if Owners(raws, id) > 1 {
        var i, j := TwoOwners(raws, id);
        OwnIsAssigned(raws, i);
        TakenIsRefused(raws, i, j);
      }
    }
    forall base, k: nat | k < Derivers(raws, base)
      ensures Owners(raws, Candidate(base, k)) == 0
    {
      if Owners(raws, Candidate(base, k)) > 0 {
        var order := DerivedFirstRefused(raws, base, k);
      }
    }
  }

  /** Every order of a file's rules is accepted exactly when no own id repeats or is within a derived rule's reach. */
  lemma EveryOrderExactly(raws: seq<RawRule>)
    requires SameLengths(raws)
    ensures (forall order :: multiset(order) == multiset(raws) ==> Parses(order)) <==> OrderFree(raws)
  {
    hide OrderFree, Parses, SameLengths;
    if OrderFree(raws) {
      forall order | multiset(order) == multiset(raws)
        ensures Parses(order)
      {
        OrderFreeForAll(raws, order);
        OrderFreeParses(order);
      }
    }
    if forall order :: multiset(order) == multiset(raws) ==> Parses(order) {
      AcceptedIsOrderFree(raws);
    }
  }
}
