/**
 The pure part of the card-add action: which candidate cards survive the
 duplicate-issue filter, how survivors are stamped into cards, and where
 repeated insertion at position 1 leaves them in the target column.
 */
module Import {
  import opened Params
  import opened Ordering
  import opened Records

  /** What the import collaborators gave for the card text: a literal name
      (classification said it is neither an issue link nor a URL), the cards
      fetched for an issue or URL, or the message of the exception that
      classification or fetching raised. */
  datatype Lookup = LiteralText | Fetched(candidates: seq<Candidate>) | FetchFailed(message: string)

  /** The candidate list of a lookup that did not fail: a literal name gives
      one card of that name with no issue key. */
  function Candidates(name: Param, lookup: Lookup): seq<Candidate>
    requires !lookup.FetchFailed?
  {
    match lookup
    case LiteralText => [Candidate(name, None)]
    case Fetched(cs) => cs
  }

  /** The issue keys of the taskboard's cards, `nil` keys left out. */
  function KnownIssues(cards: map<Id, Card>): (keys: set<string>)
    ensures forall k :: k in keys <==> exists c :: c in cards.Values && c.issue == Some(k)
  {
    set c | c in cards.Values && c.issue.Some? :: c.issue.value
  }

  /** A candidate survives when it has no issue key or its key is unknown. */
  predicate Survives(known: set<string>, c: Candidate) {
    c.issue.None? || c.issue.value !in known
  }

  /** The candidates that survive, in fetch order. */
  function Survivors(known: set<string>, cs: seq<Candidate>): (r: seq<Candidate>)
    ensures |r| <= |cs|
    ensures forall c :: c in r ==> c in cs && Survives(known, c)
  {
    if cs == [] then []
    else if Survives(known, cs[0]) then [cs[0]] + Survivors(known, cs[1..])
    else Survivors(known, cs[1..])
  }

  /** Exactly the surviving candidates are kept, each as often as it was
      fetched. */
  lemma {:induction false} SurvivorsCount(known: set<string>, cs: seq<Candidate>, c: Candidate)
    ensures multiset(Survivors(known, cs))[c] == if Survives(known, c) then multiset(cs)[c] else 0
  {
    if cs != [] {
      assert cs == [cs[0]] + cs[1..];
      SurvivorsCount(known, cs[1..], c);
    }
  }

  /** Filtering keeps fetch order: it distributes over concatenation. */
  lemma {:induction false} SurvivorsConcat(known: set<string>, a: seq<Candidate>, b: seq<Candidate>)
    ensures Survivors(known, a + b) == Survivors(known, a) + Survivors(known, b)
  {
    if a != [] {
      assert (a + b)[0] == a[0] && (a + b)[1..] == a[1..] + b;
      SurvivorsConcat(known, a[1..], b);
    } else {
      assert a + b == b;
    }
  }

  /** A candidate without an issue key (every literal card) is never dropped. */
  lemma KeylessCandidateSurvives(known: set<string>, cs: seq<Candidate>, i: nat)
    requires i < |cs| && cs[i].issue == None
    ensures cs[i] in Survivors(known, cs)
  {
    SurvivorsCount(known, cs, cs[i]);
    assert cs[i] in multiset(cs);
  }

  /** A candidate whose key is already on the taskboard is always dropped. */
  lemma KnownIssueDropped(known: set<string>, cs: seq<Candidate>, i: nat)
    requires i < |cs| && cs[i].issue.Some? && cs[i].issue.value in known
    ensures cs[i] !in Survivors(known, cs)
  {}

  /** The known keys are collected once, before any insertion, so two
      candidates of one batch that share a new key are both kept. */
  lemma SameBatchDuplicatesKept(known: set<string>, a: Candidate, b: Candidate)
    requires a.issue.Some? && a.issue == b.issue && a.issue.value !in known
    ensures Survivors(known, [a, b]) == [a, b]
  {
    assert [a, b][1..] == [b];
  }

  /** With a literal name the one candidate is always added. */
  lemma LiteralCandidateAdded(known: set<string>, name: Param)
    ensures Survivors(known, Candidates(name, LiteralText)) == [Candidate(name, None)]
  {
    assert [Candidate(name, None)][1..] == [];
  }

  /** A survivor stamped with the target taskboard, column and row. */
  function Stamp(c: Candidate, id: Id, taskboardId: Id, columnId: Id, rowId: Id): Card {
    Card(id, taskboardId, columnId, rowId, c.name, c.issue)
  }

  /** The survivors stamped in order, saved under the consecutive ids
      `first`, `first + 1`, ... */
  function StampAll(cs: seq<Candidate>, first: Id, taskboardId: Id, columnId: Id, rowId: Id): seq<Card> {
    if cs == [] then []
    else StampAll(cs[..|cs| - 1], first, taskboardId, columnId, rowId)
         + [Stamp(cs[|cs| - 1], first + |cs| - 1, taskboardId, columnId, rowId)]
  }

  lemma StampAllLength(cs: seq<Candidate>, first: Id, taskboardId: Id, columnId: Id, rowId: Id)
    ensures |StampAll(cs, first, taskboardId, columnId, rowId)| == |cs|
  {
    StampAllAt(cs, first, taskboardId, columnId, rowId);
  }

  /** The `i`-th stamped card is saved under id `first + i`. */
  lemma StampAllId(cs: seq<Candidate>, first: Id, taskboardId: Id, columnId: Id, rowId: Id, i: nat)
    requires i < |cs|
    ensures |StampAll(cs, first, taskboardId, columnId, rowId)| == |cs|
    ensures StampAll(cs, first, taskboardId, columnId, rowId)[i].id == first + i
  {
    StampAllAt(cs, first, taskboardId, columnId, rowId);
  }

  /** Every stamped card carries its candidate's name and key, the target
      taskboard, column and row, and its own consecutive id. */
  lemma {:induction false} StampAllAt(cs: seq<Candidate>, first: Id, taskboardId: Id, columnId: Id, rowId: Id)
    ensures |StampAll(cs, first, taskboardId, columnId, rowId)| == |cs|
    ensures forall i :: 0 <= i < |cs| ==>
      StampAll(cs, first, taskboardId, columnId, rowId)[i]
        == Card(first + i, taskboardId, columnId, rowId, cs[i].name, cs[i].issue)
  {
    if cs != [] {
      StampAllAt(cs[..|cs| - 1], first, taskboardId, columnId, rowId);
    }
  }

  function IdsOf(cards: seq<Card>): (ids: seq<Id>)
    ensures |ids| == |cards| && forall i :: 0 <= i < |cards| ==> ids[i] == cards[i].id
  {
    if cards == [] then [] else IdsOf(cards[..|cards| - 1]) + [cards[|cards| - 1].id]
  }

  /** The card store after saving `cards` one after the other. */
  function WithCards(m: map<Id, Card>, cards: seq<Card>): map<Id, Card> {
    if cards == [] then m
    else WithCards(m, cards[..|cards| - 1])[cards[|cards| - 1].id := cards[|cards| - 1]]
  }

  /** Saving cards under fresh distinct ids keeps every old record and adds
      exactly the new ones. */
  lemma {:induction false} WithCardsAt(m: map<Id, Card>, cards: seq<Card>)
    requires forall i :: 0 <= i < |cards| ==> cards[i].id !in m
    requires forall i, j :: 0 <= i < j < |cards| ==> cards[i].id != cards[j].id
    ensures forall k :: k in WithCards(m, cards) <==> k in m || k in IdsOf(cards)
    ensures forall k :: k in m ==> WithCards(m, cards)[k] == m[k]
    ensures forall i :: 0 <= i < |cards| ==>
      cards[i].id in WithCards(m, cards) && WithCards(m, cards)[cards[i].id] == cards[i]
  {
    if cards != [] {
      var init := cards[..|cards| - 1];
      WithCardsAt(m, init);
      assert IdsOf(cards) == IdsOf(init) + [cards[|cards| - 1].id];
    }
  }

  /** A list reversed. */
  function Reverse(s: seq<Id>): (r: seq<Id>)
    ensures |r| == |s|
    ensures forall x :: x in r <==> x in s
  {
    if s == [] then [] else [s[|s| - 1]] + Reverse(s[..|s| - 1])
  }

  lemma {:induction false} ReverseAt(s: seq<Id>, i: nat)
    requires i < |s|
    ensures Reverse(s)[i] == s[|s| - 1 - i]
  {
    if i > 0 {
      ReverseAt(s[..|s| - 1], i - 1);
    }
  }

  /** A card list after `insert_at(1)` of each id in turn. */
  function PushEach(list: seq<Id>, ids: seq<Id>): seq<Id> {
    if ids == [] then list
    else InsertAt(PushEach(list, ids[..|ids| - 1]), ids[|ids| - 1], 1)
  }

  /** One step of the pushes: a new id inserted at position 1 above the
      ids pushed so far. */
  lemma PushOnTop(pushed: seq<Id>, list: seq<Id>, x: Id)
    requires x !in pushed && x !in list
    ensures InsertAt(pushed + list, x, 1) == ([x] + pushed) + list
  {
    InsertAtFront(pushed + list, x);
  }

  /** Inserting new cards one by one at position 1 puts them on top of the
      column in reverse fetch order: the last survivor ends up first, and
      the cards that were there keep their order below them. */
  lemma {:induction false} PushEachOnTop(list: seq<Id>, ids: seq<Id>)
    requires Distinct(ids)
    requires forall x :: x in ids ==> x !in list
    ensures PushEach(list, ids) == Reverse(ids) + list
  {
    if ids != [] {
      var init := ids[..|ids| - 1];
      var x := ids[|ids| - 1];
      assert Distinct(init);
      assert forall y :: y in init ==> y in ids;
      PushEachOnTop(list, init);
      assert x !in init;
      PushOnTop(Reverse(init), list, x);
    }
  }

  /** The last survivor is on top of the column. */
  lemma LastAddedOnTop(list: seq<Id>, ids: seq<Id>)
    requires ids != [] && Distinct(ids)
    requires forall x :: x in ids ==> x !in list
    ensures PushEach(list, ids)[0] == ids[|ids| - 1]
  {
    PushEachOnTop(list, ids);
    ReverseAt(ids, 0);
  }

  /** No two cards of the store share an issue key. */
  ghost predicate IssueKeysUnique(cards: map<Id, Card>) {
    forall a, b :: a in cards && b in cards && a != b && cards[a].issue.Some? ==> cards[a].issue != cards[b].issue
  }

  /** No two candidates of a batch share an issue key. */
  ghost predicate BatchKeysDistinct(cs: seq<Candidate>) {
    forall i, j :: 0 <= i < j < |cs| && cs[i].issue.Some? ==> cs[i].issue != cs[j].issue
  }

  lemma {:induction false} SurvivorsKeysDistinct(known: set<string>, cs: seq<Candidate>)
    requires BatchKeysDistinct(cs)
    ensures BatchKeysDistinct(Survivors(known, cs))
  {
    if cs != [] {
      var rest := cs[1..];
      assert BatchKeysDistinct(rest);
      SurvivorsKeysDistinct(known, rest);
      if Survives(known, cs[0]) && cs[0].issue.Some? {
        var r := Survivors(known, rest);
        forall j | 0 <= j < |r| ensures r[j].issue != cs[0].issue {
          assert r[j] in r;
          var k :| 0 <= k < |rest| && rest[k] == r[j];
          assert cs[k + 1] == r[j];
        }
      }
    }
  }

  /** The import keeps issue keys unique on the taskboard, provided the
      fetched batch does not itself repeat a key. */
  lemma ImportKeepsKeysUnique(cards: map<Id, Card>, cs: seq<Candidate>, first: Id,
                              taskboardId: Id, columnId: Id, rowId: Id)
    requires IssueKeysUnique(cards)
    requires forall k :: k in cards ==> k < first
    requires BatchKeysDistinct(cs)
    ensures IssueKeysUnique(WithCards(cards, StampAll(Survivors(KnownIssues(cards), cs),
                                                      first, taskboardId, columnId, rowId)))
  {
    var known := KnownIssues(cards);
    var surv := Survivors(known, cs);
    var added := StampAll(surv, first, taskboardId, columnId, rowId);
    StampAllAt(surv, first, taskboardId, columnId, rowId);
    SurvivorsKeysDistinct(known, cs);
    WithCardsAt(cards, added);
    var m := WithCards(cards, added);
    forall a, b | a in m && b in m && a != b && m[a].issue.Some? ensures m[a].issue != m[b].issue {
      if a !in cards {
        var i :| 0 <= i < |added| && IdsOf(added)[i] == a;
        assert m[a] == added[i];
        if b in cards {
          SurvivorKeyUnknown(cards, surv[i], b);
        } else {
          var j :| 0 <= j < |added| && IdsOf(added)[j] == b;
          assert m[b] == added[j];
          if i < j {
            assert surv[i].issue != surv[j].issue;
          } else {
            assert surv[j].issue != surv[i].issue;
          }
        }
      } else if b !in cards {
        var j :| 0 <= j < |added| && IdsOf(added)[j] == b;
        assert m[b] == added[j];
        if surv[j].issue.Some? {
          SurvivorKeyUnknown(cards, surv[j], a);
        }
      }
    }
  }

  /** A surviving key is on no card of the taskboard. */
  lemma SurvivorKeyUnknown(cards: map<Id, Card>, c: Candidate, a: Id)
    requires c.issue.Some? && Survives(KnownIssues(cards), c) && a in cards
    ensures cards[a].issue != c.issue
  {
    assert cards[a] in cards.Values;
  }

  /** Without that proviso the key check does not protect the board: a batch
      that repeats an unknown key adds two cards with the same key. */
  lemma RepeatedKeyInBatchIsDuplicated(cards: map<Id, Card>, c: Candidate, first: Id,
                                       taskboardId: Id, columnId: Id, rowId: Id)
    requires c.issue.Some? && c.issue.value !in KnownIssues(cards)
    requires forall k :: k in cards ==> k < first
    ensures !IssueKeysUnique(WithCards(cards, StampAll(Survivors(KnownIssues(cards), [c, c]),
                                                       first, taskboardId, columnId, rowId)))
  {
    var known := KnownIssues(cards);
    SameBatchDuplicatesKept(known, c, c);
    var added := StampAll([c, c], first, taskboardId, columnId, rowId);
    StampAllAt([c, c], first, taskboardId, columnId, rowId);
    WithCardsAt(cards, added);
    var m := WithCards(cards, added);
    assert m[first] == added[0] && m[first + 1] == added[1];
  }
}
