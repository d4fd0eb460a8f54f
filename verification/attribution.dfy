/**
 * Offer attribution (`get_transaction_from_offer`): the person-offer keys
 * whose latest `offer completed` event is no earlier than their first
 * `offer viewed` event, listed in order of person.
 */
module Attribution {
  import opened Transcript
  import opened Unique
  import opened Sorting
  import Lex

  /** The log holds an event of the given kind for key k. */
  predicate HasEvent(log: seq<Event>, k: string, kind: Kind) {
    exists e :: e in log && e.key == k && e.event == kind
  }

  /**
   * The reference rule: some view of key k is no later than some completion of
   * key k.  Equivalently, the latest completion is no earlier than the
   * earliest view.
   */
  ghost predicate Attributable(log: seq<Event>, k: string) {
    exists v, c ::
      && v in log && v.key == k && v.event == OfferViewed
      && c in log && c.key == k && c.event == OfferCompleted
      && v.time <= c.time
  }

  /** The keys that have been viewed at least once. */
  function ViewedKeys(log: seq<Event>): (v: set<string>)
    ensures forall k :: k in v <==> HasEvent(log, k, OfferViewed)
  {
    set e | e in log && e.event == OfferViewed :: e.key
  }

  /** The completion events, in log order, whose key is among the viewed keys. */
  function Candidates(log: seq<Event>, viewed: set<string>): (c: seq<Event>)
    ensures forall e :: e in c <==> e in log && e.event == OfferCompleted && e.key in viewed
  {
    if |log| == 0 then []
    else
      assert log == [log[0]] + log[1..];
      var rest := Candidates(log[1..], viewed);
      if log[0].event == OfferCompleted && log[0].key in viewed then [log[0]] + rest else rest
  }

  function KeysOf(s: seq<Event>): seq<string> {
    seq(|s|, i requires 0 <= i < |s| => s[i].key)
  }

  /** The viewed-and-completed rows sorted by person. */
  function SortedCandidates(log: seq<Event>): seq<Event> {
    Sort(ByPerson, Candidates(log, ViewedKeys(log)))
  }

  /** The keys the attribution loop visits, in the order it visits them. */
  function OffersToScan(log: seq<Event>): seq<string> {
    Dedup(KeysOf(SortedCandidates(log)))
  }

  /** The rows of key k, in log order. */
  function EventsWithKey(log: seq<Event>, k: string): (r: seq<Event>)
    ensures forall e :: e in r <==> e in log && e.key == k
  {
    if |log| == 0 then []
    else
      assert log == [log[0]] + log[1..];
      var rest := EventsWithKey(log[1..], k);
      if log[0].key == k then [log[0]] + rest else rest
  }

  /** The rows of s of one event kind, in the order of s. */
  function OfKind(s: seq<Event>, kind: Kind): (r: seq<Event>)
    ensures forall e :: e in r <==> e in s && e.event == kind
    ensures Sorted(ByTime, s) ==> Sorted(ByTime, r)
  {
    if |s| == 0 then []
    else
      assert s == [s[0]] + s[1..];
      var rest := OfKind(s[1..], kind);
      if s[0].event == kind then [s[0]] + rest else rest
  }

  /** All rows of key k sorted by time. */
  function OfferTiming(log: seq<Event>, k: string): (r: seq<Event>)
    ensures Sorted(ByTime, r)
    ensures forall e :: e in r <==> e in log && e.key == k
  {
    var s := EventsWithKey(log, k);
    var r := Sort(ByTime, s);
    assert forall e :: e in r <==> e in multiset(s);
    r
  }

  /** The views of key k, sorted by time. */
  function ViewsByTime(log: seq<Event>, k: string): (r: seq<Event>)
    ensures Sorted(ByTime, r)
    ensures forall e :: e in r <==> e in log && e.key == k && e.event == OfferViewed
  {
    OfKind(OfferTiming(log, k), OfferViewed)
  }

  /** The completions of key k, sorted by time. */
  function CompletionsByTime(log: seq<Event>, k: string): (r: seq<Event>)
    ensures Sorted(ByTime, r)
    ensures forall e :: e in r <==> e in log && e.key == k && e.event == OfferCompleted
  {
    OfKind(OfferTiming(log, k), OfferCompleted)
  }

  /**
   * The time of the first view in time order (`iloc[0]` of the time-sorted
   * views), which is the earliest view time of the key.
   */
  function TimeViewed(log: seq<Event>, k: string): (t: int)
    requires HasEvent(log, k, OfferViewed)
    ensures exists v :: v in log && v.key == k && v.event == OfferViewed && v.time == t
    ensures forall v :: v in log && v.key == k && v.event == OfferViewed ==> t <= v.time
  {
    var views := ViewsByTime(log, k);
    var e :| e in log && e.key == k && e.event == OfferViewed;
    assert e in views;
    var first := views[0];
    assert first in views;
    assert forall v :: v in views ==> first.time <= v.time by {
      forall v | v in views
        ensures first.time <= v.time
      {
        FirstIsLeast(ByTime, views, v);
      }
    }
    first.time
  }

  /**
   * The time of the last completion in time order (`iloc[-1]` of the
   * time-sorted completions), which is the latest completion time of the key.
   */
  function TimeCompleted(log: seq<Event>, k: string): (t: int)
    requires HasEvent(log, k, OfferCompleted)
    ensures exists c :: c in log && c.key == k && c.event == OfferCompleted && c.time == t
    ensures forall c :: c in log && c.key == k && c.event == OfferCompleted ==> c.time <= t
  {
    var completions := CompletionsByTime(log, k);
    var e :| e in log && e.key == k && e.event == OfferCompleted;
    assert e in completions;
    var last := completions[|completions| - 1];
    assert last in completions;
    assert forall c :: c in completions ==> c.time <= last.time by {
      forall c | c in completions
        ensures c.time <= last.time
      {
        LastIsGreatest(ByTime, completions, c);
      }
    }
    last.time
  }

  /** The decision taken for one key of the loop. */
  predicate LeadsToTransaction(log: seq<Event>, k: string)
    requires HasEvent(log, k, OfferViewed) && HasEvent(log, k, OfferCompleted)
  {
    TimeCompleted(log, k) >= TimeViewed(log, k)
  }

  /** Every key the loop visits has both a view and a completion. */
  predicate Scannable(log: seq<Event>, offers: seq<string>) {
    forall i :: 0 <= i < |offers| ==>
      HasEvent(log, offers[i], OfferViewed) && HasEvent(log, offers[i], OfferCompleted)
  }

  /** The attribution loop: keeps the visited keys that lead to a transaction, in order. */
  function ScanOffers(log: seq<Event>, offers: seq<string>): (r: seq<string>)
    requires Scannable(log, offers)
    ensures IsSubsequence(r, offers)
  {
    if |offers| == 0 then []
    else
      var rest := ScanOffers(log, offers[1..]);
      if LeadsToTransaction(log, offers[0]) then
        assert ([offers[0]] + rest)[1..] == rest;
        [offers[0]] + rest
      else
        rest
  }

  /** The loop keeps exactly the visited keys that lead to a transaction. */
  lemma {:induction false} InScanOffers(log: seq<Event>, offers: seq<string>, k: string)
    requires Scannable(log, offers)
    ensures k in ScanOffers(log, offers) <==> k in offers && LeadsToTransaction(log, k)
    decreases |offers|
  {
    if |offers| > 0 {
      InScanOffers(log, offers[1..], k);
      assert offers == [offers[0]] + offers[1..];
    }
  }

  /** The whole attribution over a normalised log. */
  function GetTransactionFromOffer(log: seq<Event>): (r: seq<string>)
    ensures forall k :: k in r <==> Attributable(log, k)
    ensures NoDup(r)
  {
    var offers := OffersToScan(log);
    OffersToScanIff(log);
    var r := ScanOffers(log, offers);
    SubsequenceNoDup(r, offers);
    assert forall k :: k in r <==> Attributable(log, k) by {
      forall k
        ensures k in r <==> Attributable(log, k)
      {
        InScanOffers(log, offers, k);
        if HasEvent(log, k, OfferViewed) && HasEvent(log, k, OfferCompleted) {
          LeadsIffAttributable(log, k);
        }
      }
    }
    r
  }

  // ---------------------------------------------------------------------------
  // Sort-then-index is min / max

  /** The loop's decision for a key agrees with the reference rule. */
  lemma LeadsIffAttributable(log: seq<Event>, k: string)
    requires HasEvent(log, k, OfferViewed) && HasEvent(log, k, OfferCompleted)
    ensures LeadsToTransaction(log, k) <==> Attributable(log, k)
  {
  }

  /** The loop visits exactly the keys that have both a view and a completion. */
  lemma OffersToScanIff(log: seq<Event>)
    ensures forall k :: k in OffersToScan(log) <==>
              HasEvent(log, k, OfferViewed) && HasEvent(log, k, OfferCompleted)
  {
    var sorted := SortedCandidates(log);
    var keys := KeysOf(sorted);
    SortedCandidatesRows(log);
    forall k
      ensures k in keys <==> HasEvent(log, k, OfferViewed) && HasEvent(log, k, OfferCompleted)
    {
      KeysOfIff(sorted, k);
    }
    DedupMembership(keys);
  }

  /** Sorting keeps exactly the completions of viewed keys. */
  lemma SortedCandidatesRows(log: seq<Event>)
    ensures forall e :: e in SortedCandidates(log) <==>
              e in log && e.event == OfferCompleted && HasEvent(log, e.key, OfferViewed)
  {
    var cands := Candidates(log, ViewedKeys(log));
    assert forall e :: e in SortedCandidates(log) <==> e in multiset(cands);
  }

  lemma KeysOfIff(s: seq<Event>, k: string)
    ensures k in KeysOf(s) <==> exists e :: e in s && e.key == k
  {
    var keys := KeysOf(s);
    if k in keys {
      var i :| 0 <= i < |keys| && keys[i] == k;
      assert s[i] in s;
    }
    if e :| e in s && e.key == k {
      var i :| 0 <= i < |s| && s[i] == e;
      assert keys[i] == k;
    }
  }

  // ---------------------------------------------------------------------------
  // Order of the output

  /** The row the loop's key list takes key k from: the first row of k in person order. */
  function ScanRow(log: seq<Event>, k: string): Event
    requires k in OffersToScan(log)
  {
    var sorted := SortedCandidates(log);
    sorted[FirstIndex(KeysOf(sorted), k)]
  }

  /** The row a visited key is taken from is a completion row of the log with that key. */
  lemma ScanRowIsCompletion(log: seq<Event>, k: string)
    requires k in OffersToScan(log)
    ensures ScanRow(log, k) in log && ScanRow(log, k).key == k
    ensures ScanRow(log, k).event == OfferCompleted
  {
    var sorted := SortedCandidates(log);
    var a := FirstIndex(KeysOf(sorted), k);
    assert sorted[a] in multiset(Candidates(log, ViewedKeys(log)));
  }

  /** Keys visited earlier are taken from rows no later in person order. */
  lemma ScanRowOrder(log: seq<Event>, k1: string, k2: string)
    requires k1 in OffersToScan(log) && k2 in OffersToScan(log)
    requires FirstIndex(KeysOf(SortedCandidates(log)), k1) < FirstIndex(KeysOf(SortedCandidates(log)), k2)
    ensures Lex.LexLe(ScanRow(log, k1).person, ScanRow(log, k2).person)
  {
    var sorted := SortedCandidates(log);
    var keys := KeysOf(sorted);
    assert Le(ByPerson, sorted[FirstIndex(keys, k1)], sorted[FirstIndex(keys, k2)]);
  }

  /**
   * Every output key is taken from a completion row of the log, and those rows
   * come in non-decreasing order of person.
   */
  lemma OutputInPersonOrder(log: seq<Event>)
    ensures var r := GetTransactionFromOffer(log);
      && (forall i :: 0 <= i < |r| ==> r[i] in OffersToScan(log))
      && (forall i :: 0 <= i < |r| ==>
            ScanRow(log, r[i]) in log && ScanRow(log, r[i]).key == r[i] && ScanRow(log, r[i]).event == OfferCompleted)
      && (forall i, j :: 0 <= i < j < |r| ==> Lex.LexLe(ScanRow(log, r[i]).person, ScanRow(log, r[j]).person))
  {
    var keys := KeysOf(SortedCandidates(log));
    var offers := OffersToScan(log);
    var r := GetTransactionFromOffer(log);
    OffersToScanIff(log);
    assert r == ScanOffers(log, offers);
    SubsequenceValues(r, offers);
    SubsequenceKeepsOrder(keys, r, offers);
    forall i | 0 <= i < |r|
      ensures ScanRow(log, r[i]) in log && ScanRow(log, r[i]).key == r[i]
      ensures ScanRow(log, r[i]).event == OfferCompleted
    {
      ScanRowIsCompletion(log, r[i]);
    }
    forall i, j | 0 <= i < j < |r|
      ensures Lex.LexLe(ScanRow(log, r[i]).person, ScanRow(log, r[j]).person)
    {
      ScanRowOrder(log, r[i], r[j]);
    }
  }

  // ---------------------------------------------------------------------------
  // Only views and completions decide

  /** The views and completions of the log, in log order. */
  function Relevant(log: seq<Event>): (r: seq<Event>)
    ensures forall e :: e in r <==> e in log && (e.event == OfferViewed || e.event == OfferCompleted)
  {
    if |log| == 0 then []
    else
      assert log == [log[0]] + log[1..];
      var rest := Relevant(log[1..]);
      if log[0].event == OfferViewed || log[0].event == OfferCompleted then [log[0]] + rest else rest
  }

  lemma {:induction false} CandidatesOfRelevant(log: seq<Event>, viewed: set<string>)
    ensures Candidates(log, viewed) == Candidates(Relevant(log), viewed)
  {
    if |log| > 0 {
      CandidatesOfRelevant(log[1..], viewed);
    }
  }

  lemma {:induction false} ScanSameDecisions(log1: seq<Event>, log2: seq<Event>, offers: seq<string>)
    requires Scannable(log1, offers) && Scannable(log2, offers)
    requires forall i :: 0 <= i < |offers| ==>
               LeadsToTransaction(log1, offers[i]) == LeadsToTransaction(log2, offers[i])
    ensures ScanOffers(log1, offers) == ScanOffers(log2, offers)
    decreases |offers|
  {
    if |offers| > 0 {
      ScanSameDecisions(log1, log2, offers[1..]);
    }
  }

  /**
   * Two logs with the same views and completions, in the same order, give the
   * same output: `offer received` and `transaction` rows never matter.
   */
  lemma OnlyViewsAndCompletionsMatter(log1: seq<Event>, log2: seq<Event>)
    requires Relevant(log1) == Relevant(log2)
    ensures GetTransactionFromOffer(log1) == GetTransactionFromOffer(log2)
  {
    var rel := Relevant(log1);
    assert ViewedKeys(log1) == ViewedKeys(log2) by {
      forall k
        ensures k in ViewedKeys(log1) <==> k in ViewedKeys(log2)
      {
        if HasEvent(log1, k, OfferViewed) {
          var e :| e in log1 && e.key == k && e.event == OfferViewed;
          assert e in rel;
        }
        if HasEvent(log2, k, OfferViewed) {
          var e :| e in log2 && e.key == k && e.event == OfferViewed;
          assert e in rel;
        }
      }
    }
    CandidatesOfRelevant(log1, ViewedKeys(log1));
    CandidatesOfRelevant(log2, ViewedKeys(log2));
    var offers := OffersToScan(log1);
    assert offers == OffersToScan(log2);
    OffersToScanIff(log1);
    OffersToScanIff(log2);
    forall i | 0 <= i < |offers|
      ensures LeadsToTransaction(log1, offers[i]) == LeadsToTransaction(log2, offers[i])
    {
      var k := offers[i];
      LeadsIffAttributable(log1, k);
      LeadsIffAttributable(log2, k);
      SameRelevantSameRule(log1, log2, k);
    }
    ScanSameDecisions(log1, log2, offers);
  }

  lemma SameRelevantSameRule(log1: seq<Event>, log2: seq<Event>, k: string)
    requires Relevant(log1) == Relevant(log2)
    ensures Attributable(log1, k) <==> Attributable(log2, k)
  {
    var rel := Relevant(log1);
    if Attributable(log1, k) {
      var v, c :| v in log1 && v.key == k && v.event == OfferViewed
        && c in log1 && c.key == k && c.event == OfferCompleted && v.time <= c.time;
      assert v in rel && c in rel;
    }
    if Attributable(log2, k) {
      var v, c :| v in log2 && v.key == k && v.event == OfferViewed
        && c in log2 && c.key == k && c.event == OfferCompleted && v.time <= c.time;
      assert v in rel && c in rel;
    }
  }

  // ---------------------------------------------------------------------------
  // Boundary cases of the `>=` rule

  /** A view and a completion at the same time: attributed. */
  lemma SameTimeIsAttributed(p: string, o: string, t: int)
    ensures MakeKey(p, o) in GetTransactionFromOffer(
              [Event(p, OfferViewed, o, t, MakeKey(p, o)), Event(p, OfferCompleted, o, t, MakeKey(p, o))])
  {
  }

  /**
   * A completion before the view and a later one after it: attributed, as only
   * the latest completion is compared with the earliest view.
   */
  lemma LatestCompletionDecides(p: string, o: string, early: int, viewed: int, late: int)
    requires early < viewed <= late
    ensures MakeKey(p, o) in GetTransactionFromOffer(
              [Event(p, OfferCompleted, o, early, MakeKey(p, o)),
               Event(p, OfferViewed, o, viewed, MakeKey(p, o)),
               Event(p, OfferCompleted, o, late, MakeKey(p, o))])
  {
  }

  /** A single completion strictly before the only view: not attributed. */
  lemma CompletionBeforeViewIsNot(p: string, o: string, viewed: int, completed: int)
    requires completed < viewed
    ensures MakeKey(p, o) !in GetTransactionFromOffer(
              [Event(p, OfferViewed, o, viewed, MakeKey(p, o)),
               Event(p, OfferCompleted, o, completed, MakeKey(p, o))])
  {
  }

  /** A key with completions but no view, or views but no completion, is never output. */
  lemma OneSidedKeysAreNotAttributed(log: seq<Event>, k: string)
    requires !HasEvent(log, k, OfferViewed) || !HasEvent(log, k, OfferCompleted)
    ensures k !in GetTransactionFromOffer(log)
  {
  }
}
