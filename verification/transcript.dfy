/**
 * The event log and its normalisation (`transform_transcript`): every event's
 * payload mapping is replaced by its first value, exact duplicate rows are
 * dropped, and each row gets the person-offer key `person + "-" + value`.
 */
module Transcript {
  import opened Unique

  /** The four values of the `event` column. */
  datatype Kind = OfferReceived | OfferViewed | OfferCompleted | Transaction

  /**
   * A payload mapping such as `{'offer id': ...}` or `{'amount': ...}`, as its
   * (name, value) entries in insertion order; values are held as the strings
   * `astype(str)` renders them to.
   */
  type Payload = seq<(string, string)>

  /** One record of the raw log. */
  datatype RawEvent = RawEvent(person: string, event: Kind, value: Payload, time: int)

  /** A record after its payload has been replaced by a single value. */
  datatype Row = Row(person: string, event: Kind, value: string, time: int)

  /** A normalised record, carrying its person-offer key. */
  datatype Event = Event(person: string, event: Kind, value: string, time: int, key: string)

  const Separator: char := '-'

  /** The `personvalue` key of a person and a payload value. */
  function MakeKey(person: string, value: string): string {
    person + [Separator] + value
  }

  /** The payload mapping is replaced by its first value. */
  function FlattenValue(e: RawEvent): Row
    requires |e.value| > 0
  {
    Row(e.person, e.event, e.value[0].1, e.time)
  }

  function WithKey(r: Row): Event {
    Event(r.person, r.event, r.value, r.time, MakeKey(r.person, r.value))
  }

  function RowOf(e: Event): Row {
    Row(e.person, e.event, e.value, e.time)
  }

  /** Every payload has at least one entry, so that its first value exists. */
  predicate HasPayloads(raw: seq<RawEvent>) {
    forall i :: 0 <= i < |raw| ==> |raw[i].value| > 0
  }

  function FlattenAll(raw: seq<RawEvent>): seq<Row>
    requires HasPayloads(raw)
  {
    seq(|raw|, i requires 0 <= i < |raw| => FlattenValue(raw[i]))
  }

  function AddKeys(rows: seq<Row>): seq<Event> {
    seq(|rows|, i requires 0 <= i < |rows| => WithKey(rows[i]))
  }

  /** e is the normalised form of the raw record x. */
  predicate Normalizes(e: Event, x: RawEvent)
    requires |x.value| > 0
  {
    e.person == x.person && e.event == x.event && e.value == x.value[0].1 && e.time == x.time
  }

  /** The whole normalisation of the raw log. */
  function TransformTranscript(raw: seq<RawEvent>): (r: seq<Event>)
    requires HasPayloads(raw)
    ensures forall i :: 0 <= i < |r| ==> r[i].key == r[i].person + "-" + r[i].value
    ensures forall i :: 0 <= i < |r| ==> exists j :: 0 <= j < |raw| && Normalizes(r[i], raw[j])
    ensures forall j :: 0 <= j < |raw| ==> exists i :: 0 <= i < |r| && Normalizes(r[i], raw[j])
    ensures NoDup(r)
    ensures forall i :: 0 <= i < |r| ==> RowOf(r[i]) in FlattenAll(raw)
    ensures forall i, j :: 0 <= i < j < |r| ==>
              FirstIndex(FlattenAll(raw), RowOf(r[i])) < FirstIndex(FlattenAll(raw), RowOf(r[j]))
  {
    var rows := FlattenAll(raw);
    var kept := Dedup(rows);
    AddKeysFacts(kept);
    KeptRowsNormalize(raw, rows, kept);
    AddKeys(kept)
  }

  lemma AddKeysFacts(kept: seq<Row>)
    requires NoDup(kept)
    ensures |AddKeys(kept)| == |kept|
    ensures forall i :: 0 <= i < |kept| ==> RowOf(AddKeys(kept)[i]) == kept[i]
    ensures forall i :: 0 <= i < |kept| ==> AddKeys(kept)[i].key == AddKeys(kept)[i].person + "-" + AddKeys(kept)[i].value
    ensures NoDup(AddKeys(kept))
  {
    var r := AddKeys(kept);
    forall i, j | 0 <= i < j < |r|
      ensures r[i] != r[j]
    {
      assert RowOf(r[i]) == kept[i] && RowOf(r[j]) == kept[j];
    }
  }

  lemma KeptRowsNormalize(raw: seq<RawEvent>, rows: seq<Row>, kept: seq<Row>)
    requires HasPayloads(raw) && rows == FlattenAll(raw)
    requires SameValues(kept, rows)
    ensures forall i :: 0 <= i < |kept| ==> exists j :: 0 <= j < |raw| && Normalizes(WithKey(kept[i]), raw[j])
    ensures forall j :: 0 <= j < |raw| ==> exists i :: 0 <= i < |kept| && Normalizes(WithKey(kept[i]), raw[j])
  {
    forall i | 0 <= i < |kept|
      ensures exists j :: 0 <= j < |raw| && Normalizes(WithKey(kept[i]), raw[j])
    {
      var j := FirstIndex(rows, kept[i]);
      FlattenedNormalizes(raw, j);
    }
    forall j | 0 <= j < |raw|
      ensures exists i :: 0 <= i < |kept| && Normalizes(WithKey(kept[i]), raw[j])
    {
      var i := FirstIndex(kept, rows[j]);
      FlattenedNormalizes(raw, j);
    }
  }

  lemma FlattenedNormalizes(raw: seq<RawEvent>, j: nat)
    requires HasPayloads(raw) && j < |raw|
    ensures Normalizes(WithKey(FlattenAll(raw)[j]), raw[j])
  {
  }

  /**
   * Splits a key at its first separator, as `key.split('-', 1)` would; a key
   * without a separator is all person.
   */
  function SplitKey(k: string): (r: (string, string))
    ensures Separator !in r.0
    ensures Separator in k ==> r.0 + [Separator] + r.1 == k
    ensures Separator !in k ==> r == (k, "")
  {
    if Separator !in k then (k, "")
    else
      var i := FirstIndex(k, Separator);
      assert k == k[..i] + [Separator] + k[i + 1..];
      (k[..i], k[i + 1..])
  }

  /** When the person id has no separator in it, the key gives back the person and the value. */
  lemma SplitMakeKey(person: string, value: string)
    requires Separator !in person
    ensures SplitKey(MakeKey(person, value)) == (person, value)
  {
    var k := MakeKey(person, value);
    assert k[|person|] == Separator;
    var i := FirstIndex(k, Separator);
    assert k[..|person|] == person;
    assert i == |person|;
    assert k[i + 1..] == value;
  }

  /** Without that condition two different person-offer pairs can share one key. */
  lemma KeyCollision()
    ensures MakeKey("a-b", "c") == MakeKey("a", "b-c")
  {
  }
}
