/** The usage counters of lib/billingEvents.js: one event per distinct
    combination of access key, dataset, group, action, dataset type and
    key number, kept in a JS Map (insertion-ordered) until drained.
    Timestamps and serialisation are not modelled. */
module Billing {
  import opened Wrappers
  import opened JsValues

  const Encryption: string := "encrypt"
  const Decryption: string := "decrypt"
  const StructuredType: string := "structured"
  const UnstructuredType: string := "unstructured"

  /** The fields an event is keyed by. */
  datatype Fields = Fields(apiKey: string, datasetName: string, groupName: string,
                           action: string, datasetType: string, keyNumber: KeyNumber)

  datatype Event = Event(fields: Fields, count: int)

  /** The two checks getKey and the constructor share, in their order. */
  function Validate(f: Fields): (o: Outcome)
    ensures o.Pass? <==> (f.action == Encryption || f.action == Decryption) &&
                         (f.datasetType == StructuredType || f.datasetType == UnstructuredType)
    ensures f.action != Encryption && f.action != Decryption ==> o == Fail(InvalidBillingAction)
  {
    if f.action != Encryption && f.action != Decryption then Fail(InvalidBillingAction)
    else if f.datasetType != StructuredType && f.datasetType != UnstructuredType then Fail(InvalidBillingType)
    else Pass
  }

  /** The key string once the fields are valid, written as each quoted
      field followed by the rest of the key. */
  function KeyText(f: Fields): string
  {
    "api_key='" + (f.apiKey + "'" + (" datasets='" + (f.datasetName + "'" +
    (" billing_action='" + (f.action + "'" + (" dataset_groups='" + (f.groupName + "'" +
    (" dataset_type='" + (f.datasetType + "'" + (" key_number='" + (Text(f.keyNumber) + "'")))))))))))
  }

  /** BillingEvent.getKey. */
  function GetKey(f: Fields): (r: Result<string>)
    ensures r.Ok? <==> Validate(f).Pass?
    ensures r.Err? ==> r.error == Validate(f).error
  {
    if Validate(f).Fail? then Err(Validate(f).error) else Ok(KeyText(f))
  }

  /** new BillingEvent(...): the same checks, then the fields and count. */
  function NewEvent(f: Fields, count: int): (r: Result<Event>)
    ensures r.Ok? <==> GetKey(f).Ok?
    ensures r.Err? ==> r.error == GetKey(f).error
    ensures r.Ok? ==> r.value.fields == f && r.value.count == count
  {
    if Validate(f).Fail? then Err(Validate(f).error) else Ok(Event(f, count))
  }

  /** update_count(additional_count). */
  function UpdateCount(e: Event, additional: int): (e': Event)
    ensures e'.fields == e.fields && e'.count - e.count == additional
  {
    e.(count := e.count + additional)
  }

  /** The events Map: its keys in insertion order and the event of each. */
  datatype Events = Events(order: seq<string>, byKey: map<string, Event>)

  /** Every key once in the order, and exactly the keys of the map. */
  ghost predicate Wf(s: Events)
  {
    && (forall i, j :: 0 <= i < j < |s.order| ==> s.order[i] != s.order[j])
    && (forall k :: k in s.byKey <==> k in s.order)
  }

  function Empty(): (s: Events)
    ensures Wf(s) && |s.order| == 0
  {
    Events([], map[])
  }

  /** addBillingEvent: a new key appends an event with the count, a known
      key adds the count to its event in place; invalid fields throw with
      the events untouched (the caller keeps s). */
  function AddBillingEvent(s: Events, f: Fields, count: int): (r: Result<Events>)
    ensures r.Err? <==> Validate(f).Fail?
    ensures r.Err? ==> r.error == Validate(f).error
  {
    var key :- GetKey(f);
    if key in s.byKey then Ok(s.(byKey := s.byKey[key := UpdateCount(s.byKey[key], count)]))
    else Ok(Events(s.order + [key], s.byKey[key := Event(f, count)]))
  }

  /** The call the orchestrators make after each successful encryption or
      decryption: group '', type 'structured', count 1. Its action and
      type are valid, so it never fails, and it counts the event one up
      under its key. */
  lemma OrchestratorEventRecorded(s: Events, apiKey: string, name: string, action: string, k: KeyNumber)
    requires action == Encryption || action == Decryption
    ensures var f := Fields(apiKey, name, "", action, StructuredType, k);
            var r := AddBillingEvent(s, f, 1);
            && r.Ok?
            && KeyText(f) in r.value.byKey
            && r.value.byKey[KeyText(f)].count
               == (if KeyText(f) in s.byKey then s.byKey[KeyText(f)].count + 1 else 1)
  {
  }

  /** getEventCount: the number of distinct keys. */
  function GetEventCount(s: Events): (n: nat)
    ensures n == 0 <==> s.byKey == map[]
  {
    |s.byKey|
  }

  /** getBillingEvents: every event in insertion order, and an empty map
      in place of the old one. */
  function GetBillingEvents(s: Events): (r: (seq<Event>, Events))
    requires Wf(s)
    ensures |r.0| == |s.order| && r.1 == Empty()
    ensures forall i :: 0 <= i < |s.order| ==> r.0[i] == s.byKey[s.order[i]]
  {
    (seq(|s.order|, i requires 0 <= i < |s.order| => s.byKey[s.order[i]]), Empty())
  }

  /** A successful add keeps the store well formed, counts into the
      event of its key, and leaves every other event and the order of the
      earlier keys alone. */
  lemma AddPreserves(s: Events, f: Fields, count: int)
    requires Wf(s) && AddBillingEvent(s, f, count).Ok?
    ensures var s' := AddBillingEvent(s, f, count).value;
            var key := KeyText(f);
            && Wf(s')
            && key in s'.byKey
            && s'.byKey[key].fields == (if key in s.byKey then s.byKey[key].fields else f)
            && s'.byKey[key].count == (if key in s.byKey then s.byKey[key].count + count else count)
            && (forall k :: k in s.byKey && k != key ==> k in s'.byKey && s'.byKey[k] == s.byKey[k])
            && s'.order == (if key in s.byKey then s.order else s.order + [key])
  {
  }

  /** The event count of a well-formed store is the length of its order:
      one per distinct key. */
  lemma CountIsDistinctKeys(s: Events)
    requires Wf(s)
    ensures GetEventCount(s) == |s.order|
  {
    var keys := set i | 0 <= i < |s.order| :: s.order[i];
    assert s.byKey.Keys == keys;
    OrderCard(s.order);
  }

  /** A sequence without repeats has as many distinct elements as
      entries. */
  lemma {:induction false} OrderCard(o: seq<string>)
    requires forall i, j :: 0 <= i < j < |o| ==> o[i] != o[j]
    ensures |set i | 0 <= i < |o| :: o[i]| == |o|
  {
    if |o| > 0 {
      var init := o[..|o| - 1];
      OrderCard(init);
      var a := set i | 0 <= i < |init| :: init[i];
      var b := set i | 0 <= i < |o| :: o[i];
      assert b == a + {o[|o| - 1]};
      assert o[|o| - 1] !in a;
    }
  }

  /** No single quote in a field. */
  predicate NoQuote(s: string)
  {
    forall i :: 0 <= i < |s| ==> s[i] != '\''
  }

  /** A quoted field ends at its first quote. */
  lemma QuoteSplit(a: string, b: string, s: string, t: string)
    requires NoQuote(a) && NoQuote(b) && a + "'" + s == b + "'" + t
    ensures a == b && s == t
  {
    var x := a + "'" + s;
    QuoteAt(a, s);
    QuoteAt(b, t);
    assert a == x[..|a|] == b;
    assert s == x[|a| + 1..] == t;
  }

  /** In a quote-free field followed by a quote, the first quote is the
      one after the field. */
  lemma QuoteAt(a: string, s: string)
    requires NoQuote(a)
    ensures (a + "'" + s)[|a|] == '\''
    ensures forall i :: 0 <= i < |a| ==> (a + "'" + s)[i] != '\''
  {
  }

  /** Strip a common literal prefix. */
  lemma DropPrefix(p: string, s: string, t: string)
    requires p + s == p + t
    ensures s == t
  {
    assert s == (p + s)[|p|..];
  }

  /** Events whose quote-free fields differ in anything, key number
      included, have different keys, so they are counted apart. */
  lemma KeyInjective(f: Fields, g: Fields)
    requires NoQuote(f.apiKey) && NoQuote(f.datasetName) && NoQuote(f.groupName)
    requires NoQuote(g.apiKey) && NoQuote(g.datasetName) && NoQuote(g.groupName)
    requires NoQuote(f.action) && NoQuote(f.datasetType) && NoQuote(g.action) && NoQuote(g.datasetType)
    requires KeyText(f) == KeyText(g)
    ensures f == g
  {
    var t1 := " datasets='" + (f.datasetName + "'" + (" billing_action='" + (f.action + "'" + (" dataset_groups='" + (f.groupName + "'" +
              (" dataset_type='" + (f.datasetType + "'" + (" key_number='" + (Text(f.keyNumber) + "'")))))))));
    var t2 := " datasets='" + (g.datasetName + "'" + (" billing_action='" + (g.action + "'" + (" dataset_groups='" + (g.groupName + "'" +
              (" dataset_type='" + (g.datasetType + "'" + (" key_number='" + (Text(g.keyNumber) + "'")))))))));
    DropPrefix("api_key='", f.apiKey + "'" + t1, g.apiKey + "'" + t2);
    QuoteSplit(f.apiKey, g.apiKey, t1, t2);
    var u1 := " billing_action='" + (f.action + "'" + (" dataset_groups='" + (f.groupName + "'" +
              (" dataset_type='" + (f.datasetType + "'" + (" key_number='" + (Text(f.keyNumber) + "'")))))));
    var u2 := " billing_action='" + (g.action + "'" + (" dataset_groups='" + (g.groupName + "'" +
              (" dataset_type='" + (g.datasetType + "'" + (" key_number='" + (Text(g.keyNumber) + "'")))))));
    DropPrefix(" datasets='", f.datasetName + "'" + u1, g.datasetName + "'" + u2);
    QuoteSplit(f.datasetName, g.datasetName, u1, u2);
    KeyTail(f, g);
  }

  /** The second half of KeyInjective: action, group, type, key number. */
  lemma KeyTail(f: Fields, g: Fields)
    requires NoQuote(f.groupName) && NoQuote(g.groupName)
    requires NoQuote(f.action) && NoQuote(f.datasetType) && NoQuote(g.action) && NoQuote(g.datasetType)
    requires " billing_action='" + (f.action + "'" + (" dataset_groups='" + (f.groupName + "'" +
             (" dataset_type='" + (f.datasetType + "'" + (" key_number='" + (Text(f.keyNumber) + "'")))))))
             == " billing_action='" + (g.action + "'" + (" dataset_groups='" + (g.groupName + "'" +
             (" dataset_type='" + (g.datasetType + "'" + (" key_number='" + (Text(g.keyNumber) + "'")))))))
    ensures f.action == g.action && f.groupName == g.groupName && f.datasetType == g.datasetType
    ensures f.keyNumber == g.keyNumber
  {
    var v1 := " dataset_groups='" + (f.groupName + "'" + (" dataset_type='" + (f.datasetType + "'" + (" key_number='" + (Text(f.keyNumber) + "'")))));
    var v2 := " dataset_groups='" + (g.groupName + "'" + (" dataset_type='" + (g.datasetType + "'" + (" key_number='" + (Text(g.keyNumber) + "'")))));
    DropPrefix(" billing_action='", f.action + "'" + v1, g.action + "'" + v2);
    QuoteSplit(f.action, g.action, v1, v2);
    var w1 := " dataset_type='" + (f.datasetType + "'" + (" key_number='" + (Text(f.keyNumber) + "'")));
    var w2 := " dataset_type='" + (g.datasetType + "'" + (" key_number='" + (Text(g.keyNumber) + "'")));
    DropPrefix(" dataset_groups='", f.groupName + "'" + w1, g.groupName + "'" + w2);
    QuoteSplit(f.groupName, g.groupName, w1, w2);
    var y1 := " key_number='" + (Text(f.keyNumber) + "'");
    var y2 := " key_number='" + (Text(g.keyNumber) + "'");
    DropPrefix(" dataset_type='", f.datasetType + "'" + y1, g.datasetType + "'" + y2);
    QuoteSplit(f.datasetType, g.datasetType, y1, y2);
    DropPrefix(" key_number='", Text(f.keyNumber) + "'", Text(g.keyNumber) + "'");
    TextNoQuote(f.keyNumber);
    TextNoQuote(g.keyNumber);
    QuoteSplit(Text(f.keyNumber), Text(g.keyNumber), "", "");
    TextInjective(f.keyNumber, g.keyNumber);
  }

  /** Two adds with the same fields make one event carrying both counts. */
  lemma AddTwiceSums(s: Events, f: Fields, c1: int, c2: int)
    requires Wf(s) && KeyText(f) !in s.byKey && AddBillingEvent(s, f, c1).Ok?
    ensures var s1 := AddBillingEvent(s, f, c1).value;
            && AddBillingEvent(s1, f, c2).Ok?
            && AddBillingEvent(s1, f, c2).value.byKey[KeyText(f)] == Event(f, c1 + c2)
            && GetEventCount(AddBillingEvent(s1, f, c2).value) == GetEventCount(s) + 1
  {
    AddPreserves(s, f, c1);
    var s1 := AddBillingEvent(s, f, c1).value;
    AddPreserves(s1, f, c2);
    CountIsDistinctKeys(s);
    CountIsDistinctKeys(AddBillingEvent(s1, f, c2).value);
  }
}
