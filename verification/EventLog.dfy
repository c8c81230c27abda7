/** The hash-chained event log of eventlog.py. */
module EventLog {
  import opened Bytes
  import opened CborValues
  import opened Results
  import opened Json
  import opened JsonReader

  /** A SHA-256 digest and the hash function, of which only its type is used. */
  type Digest = s: bytes | |s| == 32 witness seq(32, i => 0)
  type Hash = bytes -> Digest

  /** A parsed event: a JSON object. */
  type Event = map<Text, Value>

  /** The three ways in which `verify_chain` raises `ValidationError`. */
  datatype LogError = InvalidSequence(index: nat) | BrokenChain(index: nat) | InvalidValue

  // ---------------------------------------------------------------- verification

  /** Python's `event.get(name)`. */
  function Get(e: Event, name: Text): Value {
    if name in e then e[name] else Null
  }

  /** Python's `value == index`: a boolean equals the integer it stands for. A floating point value may
      also equal an integer, but the event is then refused by `canonicalize` with the same exception. */
  predicate EqualsIndex(v: Value, index: nat) {
    match v
    case Int(n) => n == index
    case Bool(b) => index == if b then 1 else 0
    case _ => false
  }

  /** The digest behind `hash_event`. */
  function HashEvent(h: Hash, e: Event): Result<Digest, LogError> {
    match Canonicalize(Object(e))
    case None => Err(InvalidValue)
    case Some(text) => Ok(h(text))
  }

  /** One turn of the loop of `verify_chain`: the hash to be found in the next event. */
  function CheckEvent(h: Hash, e: Event, index: nat, previous: Value): Result<Value, LogError> {
    if !EqualsIndex(Get(e, Ascii("sequence")), index) then Err(InvalidSequence(index))
    else if Get(e, Ascii("previous_event_hash")) != previous then Err(BrokenChain(index))
    else
      var digest :- HashEvent(h, e);
      Ok(String(Hex(digest)))
  }

  /** The whole loop: the last value of `previous`, or the first error. */
  function ChainHead(h: Hash, events: seq<Event>): Result<Value, LogError> {
    if events == [] then Ok(Null)
    else
      var last := |events| - 1;
      var previous :- ChainHead(h, events[..last]);
      CheckEvent(h, events[last], last, previous)
  }

  predicate Verified(h: Hash, events: seq<Event>) {
    ChainHead(h, events).Ok?
  }

  /** What must hold of the event at position `i`, stated on its own. */
  ghost predicate Linked(h: Hash, events: seq<Event>, i: nat)
    requires i < |events|
  {
    && EqualsIndex(Get(events[i], Ascii("sequence")), i)
    && HashEvent(h, events[i]).Ok?
    && if i == 0 then Get(events[i], Ascii("previous_event_hash")) == Null
       else
         && HashEvent(h, events[i - 1]).Ok?
         && Get(events[i], Ascii("previous_event_hash")) == String(Hex(HashEvent(h, events[i - 1]).value))
  }

  /** The value of `previous` after the last event. */
  ghost function HeadOf(h: Hash, events: seq<Event>): Value {
    if events == [] then Null
    else
      match HashEvent(h, events[|events| - 1])
      case Ok(digest) => String(Hex(digest))
      case Err(_) => Null
  }

  lemma ChainStep(h: Hash, events: seq<Event>)
    requires events != []
    ensures var last := |events| - 1;
            && (Verified(h, events) <==>
                 Verified(h, events[..last])
                   && CheckEvent(h, events[last], last, ChainHead(h, events[..last]).value).Ok?)
            && (Verified(h, events) ==> ChainHead(h, events) == Ok(HeadOf(h, events)) && HashEvent(h, events[last]).Ok?)
  {
    hide HashEvent, Hex, Ascii, EqualsIndex, Get, ValidUtf8;
  }

  lemma CheckMeans(h: Hash, events: seq<Event>, i: nat)
    requires i < |events| && (i > 0 ==> HashEvent(h, events[i - 1]).Ok?)
    ensures CheckEvent(h, events[i], i, HeadOf(h, events[..i])).Ok? <==> Linked(h, events, i)
  {
    hide HashEvent, Hex, Ascii, EqualsIndex, Get, ValidUtf8;
    var previous := HeadOf(h, events[..i]);
    if i > 0 {
      assert events[..i][i - 1] == events[i - 1];
      assert previous == String(Hex(HashEvent(h, events[i - 1]).value));
    }
  }

  lemma LinkedPrefix(h: Hash, events: seq<Event>, n: nat, i: nat)
    requires i < n <= |events|
    ensures Linked(h, events[..n], i) <==> Linked(h, events, i)
  {
    hide HashEvent, Hex, Ascii, EqualsIndex, Get;
  }

  lemma EmptyChain(h: Hash)
    ensures ChainHead(h, []) == Ok(HeadOf(h, [])) && Verified(h, [])
  {
  }

  /** A list verifies exactly when each event has its own position as sequence number and names the
      hash of the event before it; the head is then the hash of the last event. */
  lemma {:induction false} VerifiedExactly(h: Hash, events: seq<Event>)
    ensures Verified(h, events) <==> forall i: nat :: i < |events| ==> Linked(h, events, i)
    ensures Verified(h, events) ==> ChainHead(h, events) == Ok(HeadOf(h, events))
    ensures Verified(h, events) && events != [] ==> HashEvent(h, events[|events| - 1]).Ok?
  {
    hide *;
    if events == [] {
      EmptyChain(h);
    } else {
      var last := |events| - 1;
      VerifiedExactly(h, events[..last]);
      ChainStep(h, events);
      forall i: nat | i < last ensures Linked(h, events[..last], i) <==> Linked(h, events, i) {
        LinkedPrefix(h, events, last, i);
      }
      if Verified(h, events[..last]) {
        if last > 0 {
          assert events[..last][last - 1] == events[last - 1];
        }
        CheckMeans(h, events, last);
      }
      assert (forall i: nat :: i < |events| ==> Linked(h, events, i))
          <==> (forall i: nat :: i < last ==> Linked(h, events, i)) && Linked(h, events, last);
    }
  }

  /** `verify_chain`. */
  method VerifyChain(h: Hash, events: seq<Event>) returns (r: Result<(), LogError>)
    ensures r.Ok? <==> Verified(h, events)
    ensures r.Err? ==> ChainHead(h, events) == Err(r.error)
  {
    hide CheckEvent;
    var previous: Value := Null;
    for index := 0 to |events|
      invariant ChainHead(h, events[..index]) == Ok(previous)
    {
      assert events[..index + 1][..index] == events[..index];
      var next := CheckEvent(h, events[index], index, previous);
      if next.Err? {
        FailureStays(h, events, index + 1);
        return Err(next.error);
      }
      previous := next.value;
    }
    assert events[..|events|] == events;
    return Ok(());
  }

  /** The first error is the outcome, whatever follows. */
  lemma {:induction false} FailureStays(h: Hash, events: seq<Event>, n: nat)
    requires n <= |events| && ChainHead(h, events[..n]).Err?
    ensures ChainHead(h, events) == ChainHead(h, events[..n])
    decreases |events|
  {
    hide CheckEvent;
    if n == |events| {
      assert events[..n] == events;
    } else {
      var init := events[..|events| - 1];
      assert init[..n] == events[..n];
      FailureStays(h, init, n);
    }
  }

  // ---------------------------------------------------------------- what the head fixes

  /** The texts hashed while verifying a list. */
  ghost predicate HashedText(events: seq<Event>, x: bytes) {
    exists i :: 0 <= i < |events| && Canonicalize(Object(events[i])) == Some(x)
  }

  /** Two different texts, each hashed in one of the two verifications, have one hash. */
  ghost predicate ChainCollision(h: Hash, a: seq<Event>, b: seq<Event>) {
    exists x, y :: HashedText(a, x) && HashedText(b, y) && x != y && h(x) == h(y)
  }

  lemma SameIndex(v: Value, i: nat, j: nat)
    requires EqualsIndex(v, i) && EqualsIndex(v, j)
    ensures i == j
  {
  }

  /** Equal hashes of two events mean equal events, or a collision. */
  lemma SameHash(h: Hash, a: seq<Event>, b: seq<Event>, i: nat, j: nat)
    requires i < |a| && j < |b| && HashEvent(h, a[i]).Ok? && HashEvent(h, a[i]) == HashEvent(h, b[j])
    requires !ChainCollision(h, a, b)
    ensures a[i] == b[j]
  {
    hide Canonicalize;
    var x, y := Canonicalize(Object(a[i])).value, Canonicalize(Object(b[j])).value;
    assert HashedText(a, x) && HashedText(b, y);
    CanonicalInjective(Object(a[i]), Object(b[j]));
  }

  lemma {:induction false} SamePrefixes(h: Hash, a: seq<Event>, b: seq<Event>, n: nat)
    requires Verified(h, a) && Verified(h, b) && n < |a| && n < |b|
    requires HashEvent(h, a[n]) == HashEvent(h, b[n]) && !ChainCollision(h, a, b)
    ensures a[..n + 1] == b[..n + 1]
    decreases n
  {
    hide *;
    VerifiedExactly(h, a);
    VerifiedExactly(h, b);
    LinkedMeans(h, a, n);
    LinkedMeans(h, b, n);
    SameHash(h, a, b, n, n);
    if n > 0 {
      HexInjective(HashEvent(h, a[n - 1]).value, HashEvent(h, b[n - 1]).value);
      SamePrefixes(h, a, b, n - 1);
    }
    assert a[..n + 1] == a[..n] + [a[n]] && b[..n + 1] == b[..n] + [b[n]];
  }

  lemma LinkedMeans(h: Hash, events: seq<Event>, i: nat)
    requires i < |events| && Linked(h, events, i)
    ensures EqualsIndex(Get(events[i], Ascii("sequence")), i) && HashEvent(h, events[i]).Ok?
    ensures i > 0 ==>
              && HashEvent(h, events[i - 1]).Ok?
              && Get(events[i], Ascii("previous_event_hash")) == String(Hex(HashEvent(h, events[i - 1]).value))
  {
  }

  /** Two verified lists whose last events have the same hash are the same list, or two different texts
      hashed by the two verifications collide. */
  lemma HeadFixesLog(h: Hash, a: seq<Event>, b: seq<Event>)
    requires Verified(h, a) && Verified(h, b) && a != [] && b != []
    requires HashEvent(h, a[|a| - 1]) == HashEvent(h, b[|b| - 1])
    ensures a == b || ChainCollision(h, a, b)
  {
    hide *;
    if !ChainCollision(h, a, b) {
      var m, n := |a| - 1, |b| - 1;
      VerifiedExactly(h, a);
      VerifiedExactly(h, b);
      LinkedMeans(h, a, m);
      LinkedMeans(h, b, n);
      SameHash(h, a, b, m, n);
      SameIndex(Get(a[m], Ascii("sequence")), m, n);
      SamePrefixes(h, a, b, n);
      assert a[..m + 1] == a && b[..n + 1] == b;
    }
  }

  // ---------------------------------------------------------------- appending

  /** The arguments of `append_event`, with the identifier and the time it draws itself. */
  datatype Request = Request(
    eventId: Text, eventType: Text, subject: Text, occurredAt: Text, payload: Event, privateDetails: bytes)

  function Entry(name: Text, value: Value): Event {
    map[name := value]
  }

  function NewEvent(h: Hash, sequence: nat, previous: Value, q: Request): Event {
    Entry(Ascii("event_id"), String(q.eventId))
    + Entry(Ascii("sequence"), Int(sequence))
    + Entry(Ascii("event_type"), String(q.eventType))
    + Entry(Ascii("subject"), String(q.subject))
    + Entry(Ascii("occurred_at"), String(q.occurredAt))
    + Entry(Ascii("previous_event_hash"), previous)
    + Entry(Ascii("details_commitment"), String(Hex(h(q.privateDetails))))
    + Entry(Ascii("payload"), Object(q.payload))
  }

  lemma GetPrintable(e: Event, name: Text)
    ensures Printable(Object(e)) ==> Printable(Get(e, name))
  {
  }

  lemma EightEntries<K, V>(i: K, s: K, t: K, u: K, o: K, p: K, d: K, l: K, vi: V, vs: V, vt: V, vu: V, vo: V, vp: V,
          vd: V, vl: V)
    requires i != s && i != t && i != u && i != o && i != p && i != d && i != l
    requires s != t && s != u && s != o && s != p && s != d && s != l
    requires t != u && t != o && t != p && t != d && t != l
    requires u != o && u != p && u != d && u != l
    requires o != p && o != d && o != l && p != d && p != l && d != l
    ensures var e := map[i := vi] + map[s := vs] + map[t := vt] + map[u := vu] + map[o := vo] + map[p := vp]
                     + map[d := vd] + map[l := vl];
            && e.Keys == {i, s, t, u, o, p, d, l}
            && e[i] == vi && e[s] == vs && e[t] == vt && e[u] == vu
            && e[o] == vo && e[p] == vp && e[d] == vd && e[l] == vl
  {
  }

  lemma EventNames()
    ensures var i, s, t, u := Ascii("event_id"), Ascii("sequence"), Ascii("event_type"), Ascii("subject");
            var o, p, d, l := Ascii("occurred_at"), Ascii("previous_event_hash"), Ascii("details_commitment"),
                Ascii("payload");
            && i != s && i != t && i != u && i != o && i != p && i != d && i != l
            && s != t && s != u && s != o && s != p && s != d && s != l
            && t != u && t != o && t != p && t != d && t != l
            && u != o && u != p && u != d && u != l
            && o != p && o != d && o != l && p != d && p != l && d != l
  {
    hide ValidUtf8;
    assert Ascii("event_id")[0] == AsciiByte('e') && Ascii("sequence")[0] == AsciiByte('s');
    assert Ascii("subject")[0] == AsciiByte('s') && Ascii("payload")[0] == AsciiByte('p');
  }

  /** Each part of a new event stands under its own name, and there is nothing else in it. */
  lemma NewEventFields(h: Hash, sequence: nat, previous: Value, q: Request)
    ensures var e := NewEvent(h, sequence, previous, q);
            && e.Keys == {Ascii("event_id"), Ascii("sequence"), Ascii("event_type"), Ascii("subject"),
                          Ascii("occurred_at"), Ascii("previous_event_hash"), Ascii("details_commitment"),
                          Ascii("payload")}
            && e[Ascii("event_id")] == String(q.eventId) && e[Ascii("sequence")] == Int(sequence)
            && e[Ascii("event_type")] == String(q.eventType) && e[Ascii("subject")] == String(q.subject)
            && e[Ascii("occurred_at")] == String(q.occurredAt) && e[Ascii("previous_event_hash")] == previous
            && e[Ascii("details_commitment")] == String(Hex(h(q.privateDetails)))
            && e[Ascii("payload")] == Object(q.payload)
  {
    hide Hex, Ascii, ValidUtf8;
    EventNames();
    EightEntries(
      Ascii("event_id"), Ascii("sequence"), Ascii("event_type"), Ascii("subject"), Ascii("occurred_at"),
      Ascii("previous_event_hash"), Ascii("details_commitment"), Ascii("payload"),
      String(q.eventId), Int(sequence), String(q.eventType), String(q.subject), String(q.occurredAt),
      previous, String(Hex(h(q.privateDetails))), Object(q.payload));
  }

  lemma PartsPrintable(e: Event)
    requires forall k :: k in e ==> Printable(e[k])
    ensures Printable(Object(e))
  {
  }

  /** The fields of a new event that matter to the chain, and when it has a canonical form. */
  lemma NewEventMeans(h: Hash, sequence: nat, previous: Value, q: Request)
    ensures var e := NewEvent(h, sequence, previous, q);
            && Get(e, Ascii("sequence")) == Int(sequence) && Get(e, Ascii("previous_event_hash")) == previous
            && (Printable(Object(e)) <==>
              Printable(Int(sequence)) && Printable(previous) && Printable(Object(q.payload)))
  {
    hide NewEvent, Printable, Hex, ValidUtf8, Ascii;
    var e := NewEvent(h, sequence, previous, q);
    NewEventFields(h, sequence, previous, q);
    StringPrintable(q.eventId);
    StringPrintable(q.eventType);
    StringPrintable(q.subject);
    StringPrintable(q.occurredAt);
    StringPrintable(Hex(h(q.privateDetails)));
    GetPrintable(e, Ascii("sequence"));
    GetPrintable(e, Ascii("previous_event_hash"));
    GetPrintable(e, Ascii("payload"));
    if Printable(Int(sequence)) && Printable(previous) && Printable(Object(q.payload)) {
      PartsPrintable(e);
    }
  }

  lemma StringPrintable(t: Text)
    ensures Printable(String(t))
  {
  }

  /** The event `append_event` adds to `events`, or the exception it raises. */
  function Appended(h: Hash, events: seq<Event>, q: Request): Result<Event, LogError> {
    var previous :- ChainHead(h, events);
    var e := NewEvent(h, |events|, previous, q);
    if Canonicalize(Object(e)).Some? then Ok(e) else Err(InvalidValue)
  }

  /** What an append adds to a verified list keeps it verified. */
  lemma AppendKeepsVerified(h: Hash, events: seq<Event>, q: Request)
    requires Appended(h, events, q).Ok?
    ensures Verified(h, events + [Appended(h, events, q).value])
  {
    hide Hex, NewEvent, Ascii, Get, EqualsIndex, Print, Printable;
    var previous := ChainHead(h, events).value;
    var longer := events + [Appended(h, events, q).value];
    assert longer[..|events|] == events;
    NewEventMeans(h, |events|, previous, q);
    IndexItself(|events|);
  }

  /** `t` is a digest in 64 lower-case hexadecimal digits. */
  predicate Writes(t: Text, digest: Digest) {
    LowerHex(t, 64) && FromHex(t) == digest
  }

  lemma HexWrites(digest: Digest)
    ensures Writes(Hex(digest), digest)
  {
    hide LowerHex, FromHex, Hex;
    HexReads(digest);
  }

  /** What a successful append adds: exactly eight fields. Six hold the request's own parts, the identifier and the
      time among them, the details only as the digits of their hash; the other two are the position in the list and
      the digits of the hash of the canonical text of the event before. */
  lemma AppendedFields(h: Hash, events: seq<Event>, q: Request)
    requires Appended(h, events, q).Ok?
    ensures var e := Appended(h, events, q).value;
            && e.Keys == {Ascii("event_id"), Ascii("sequence"), Ascii("event_type"), Ascii("subject"),
                          Ascii("occurred_at"), Ascii("previous_event_hash"), Ascii("details_commitment"),
                          Ascii("payload")}
            && e[Ascii("event_id")] == String(q.eventId) && e[Ascii("event_type")] == String(q.eventType)
            && e[Ascii("subject")] == String(q.subject) && e[Ascii("occurred_at")] == String(q.occurredAt)
            && e[Ascii("payload")] == Object(q.payload)
            && e[Ascii("details_commitment")].String?
            && LowerHex(e[Ascii("details_commitment")].text, 64)
            && FromHex(e[Ascii("details_commitment")].text) == h(q.privateDetails)
            && e[Ascii("sequence")] == Int(|events|)
            && (events == [] ==> e[Ascii("previous_event_hash")] == Null)
            && (events != [] ==>
                  && Printable(Object(events[|events| - 1]))
                  && e[Ascii("previous_event_hash")].String?
                  && LowerHex(e[Ascii("previous_event_hash")].text, 64)
                  && FromHex(e[Ascii("previous_event_hash")].text) == h(Print(Object(events[|events| - 1]))))
  {
    hide Hex, NewEvent, Ascii, ChainHead, Print, Printable, LowerHex, FromHex, CheckEvent, ValidUtf8;
    var previous := ChainHead(h, events).value;
    AppendedMeans(h, events, q);
    NewEventFields(h, |events|, previous, q);
    HexWrites(h(q.privateDetails));
    VerifiedExactly(h, events);
    if events != [] {
      HexWrites(HashEvent(h, events[|events| - 1]).value);
    }
  }

  /** The event holds the parts of the request, each under its own name. */
  predicate Records(e: Event, q: Request, sequence: nat) {
    && |e| == 8
    && Get(e, Ascii("event_id")) == String(q.eventId) && Get(e, Ascii("event_type")) == String(q.eventType)
    && Get(e, Ascii("subject")) == String(q.subject) && Get(e, Ascii("occurred_at")) == String(q.occurredAt)
    && Get(e, Ascii("payload")) == Object(q.payload) && Get(e, Ascii("sequence")) == Int(sequence)
  }

  lemma AppendedRecords(h: Hash, events: seq<Event>, q: Request)
    requires Appended(h, events, q).Ok?
    ensures Records(Appended(h, events, q).value, q, |events|)
  {
    hide Ascii, Appended, LowerHex, FromHex, Print, Printable, ValidUtf8;
    AppendedFields(h, events, q);
    EventNames();
    var e := Appended(h, events, q).value;
    assert |e| == |e.Keys|;
  }

  lemma AppendedMeans(h: Hash, events: seq<Event>, q: Request)
    requires Appended(h, events, q).Ok?
    ensures Verified(h, events) && ChainHead(h, events).Ok?
    ensures Appended(h, events, q).value == NewEvent(h, |events|, ChainHead(h, events).value, q)
  {
    hide NewEvent, ChainHead, Canonicalize;
  }

  /** Two successful appends of one event were asked for by one request to lists of one length, except that the
      details may differ if their hashes collide. */
  lemma AppendFixesRequest(h: Hash, a: seq<Event>, q: Request, b: seq<Event>, r: Request)
    requires Appended(h, a, q).Ok? && Appended(h, a, q) == Appended(h, b, r)
    ensures |a| == |b| && r == q.(privateDetails := r.privateDetails)
    ensures q.privateDetails == r.privateDetails || h(q.privateDetails) == h(r.privateDetails)
  {
    hide *;
    AppendedFields(h, a, q);
    AppendedFields(h, b, r);
  }

  /** `verify_chain` accepts exactly the lists in which every event has a canonical text, its position under
      `sequence` (the booleans equal to 0 and 1 included) and, under `previous_event_hash`, nothing or null at the
      start and then the digits of the hash of the canonical text of the event before. */
  lemma VerifiedByFields(h: Hash, events: seq<Event>)
    ensures Verified(h, events) <==> forall i: nat :: i < |events| ==> GoodFields(h, events, i)
  {
    hide *;
    VerifiedExactly(h, events);
    forall i: nat | i < |events| && Linked(h, events, i) ensures GoodFields(h, events, i) {
      LinkedFields(h, events, i);
    }
    forall i: nat | i < |events| && (forall j: nat :: j < |events| ==> GoodFields(h, events, j))
      ensures Linked(h, events, i)
    {
      if i > 0 {
        GoodText(h, events, i - 1);
      }
      LinkedFields(h, events, i);
    }
  }

  ghost predicate GoodFields(h: Hash, events: seq<Event>, i: nat)
    requires i < |events|
  {
    var e := events[i];
    && Printable(Object(e))
    && Ascii("sequence") in e
    && (|| e[Ascii("sequence")] == Int(i)
        || (i == 0 && e[Ascii("sequence")] == Bool(false)) || (i == 1 && e[Ascii("sequence")] == Bool(true)))
    && (i == 0 ==> Ascii("previous_event_hash") in e ==> e[Ascii("previous_event_hash")] == Null)
    && (i > 0 ==>
          && Ascii("previous_event_hash") in e && e[Ascii("previous_event_hash")].String?
          && LowerHex(e[Ascii("previous_event_hash")].text, 64)
          && FromHex(e[Ascii("previous_event_hash")].text) == h(Print(Object(events[i - 1]))))
  }

  lemma GoodText(h: Hash, events: seq<Event>, i: nat)
    requires i < |events| && GoodFields(h, events, i)
    ensures Printable(Object(events[i]))
  {
    hide Printable, Print, LowerHex, FromHex, ValidUtf8;
  }

  lemma LinkedFields(h: Hash, events: seq<Event>, i: nat)
    requires i < |events| && (i > 0 ==> Linked(h, events, i) || Printable(Object(events[i - 1])))
    ensures Linked(h, events, i) <==> GoodFields(h, events, i)
  {
    hide Hex, Ascii, LowerHex, FromHex, Print, Printable, ValidUtf8;
    if i > 0 {
      if HashEvent(h, events[i - 1]).Ok? {
        var digest := HashEvent(h, events[i - 1]).value;
        HexWrites(digest);
        var v := Get(events[i], Ascii("previous_event_hash"));
        if v.String? && LowerHex(v.text, 64) && FromHex(v.text) == digest {
          SameWriting(v.text, Hex(digest), digest);
        }
      }
    }
  }

  /** A digest is written in one way only. */
  lemma SameWriting(s: Text, t: Text, digest: Digest)
    requires Writes(s, digest) && Writes(t, digest)
    ensures s == t
  {
    hide LowerHex, FromHex, ValidUtf8;
    HexBack(s, 32);
    HexBack(t, 32);
  }

  lemma CutAgain(h: Hash, events: seq<Event>, i: nat)
    requires i < |events|
    ensures ChainHead(h, events[..i + 1]) ==
            if ChainHead(h, events[..i]).Err? then ChainHead(h, events[..i])
            else CheckEvent(h, events[i], i, ChainHead(h, events[..i]).value)
  {
    hide CheckEvent;
    assert events[..i + 1][..i] == events[..i];
  }

  /** The exception is that of the first event that does not continue the chain: of its sequence number if that is
      not its position, else of its link if that is not null at the start or the digits of the hash of the event
      before, else of its value. */
  lemma FirstFailure(h: Hash, events: seq<Event>, i: nat)
    requires i < |events| && Verified(h, events[..i]) && !Verified(h, events[..i + 1])
    ensures var number := Get(events[i], Ascii("sequence"));
            var link := Get(events[i], Ascii("previous_event_hash"));
            ChainHead(h, events) == Err(
              if number != Int(i) && !(i == 0 && number == Bool(false)) && !(i == 1 && number == Bool(true))
              then InvalidSequence(i)
              else if i == 0 && link != Null then BrokenChain(i)
              else if i > 0 && !(link.String? && LowerHex(link.text, 64)
                                 && FromHex(link.text) == h(Print(Object(events[i - 1])))) then BrokenChain(i)
              else InvalidValue)
  {
    hide Hex, Ascii, LowerHex, FromHex, Print, Printable, ChainHead, ValidUtf8;
    CutAgain(h, events, i);
    FailureStays(h, events, i + 1);
    VerifiedExactly(h, events[..i]);
    if i > 0 {
      assert events[..i][i - 1] == events[i - 1];
      var digest := HashEvent(h, events[i - 1]).value;
      HexWrites(digest);
      var link := Get(events[i], Ascii("previous_event_hash"));
      if link.String? && LowerHex(link.text, 64) && FromHex(link.text) == digest {
        SameWriting(link.text, Hex(digest), digest);
      }
    }
  }

  lemma IndexItself(n: nat)
    ensures EqualsIndex(Int(n), n)
  {
  }

  /** An append is refused exactly when the list does not verify, the payload has no canonical form or
      the list is too long for its length to be a safe integer. */
  lemma AppendFails(h: Hash, events: seq<Event>, q: Request)
    ensures Appended(h, events, q).Err? <==>
            !Verified(h, events) || !Printable(Object(q.payload)) || |events| > MAX_SAFE_INTEGER
  {
    hide HashEvent, Hex, NewEvent, ChainHead, Print, CheckEvent;
    if Verified(h, events) {
      VerifiedExactly(h, events);
      NewEventMeans(h, |events|, HeadOf(h, events), q);
    }
  }

  /** Any run of appends, refused ones leaving the list as it is. */
  function Run(h: Hash, events: seq<Event>, requests: seq<Request>): seq<Event>
    decreases |requests|
  {
    if requests == [] then events
    else
      match Appended(h, events, requests[0])
      case Ok(e) => Run(h, events + [e], requests[1..])
      case Err(_) => Run(h, events, requests[1..])
  }

  /** Every run from a verified list ends in a verified list that extends it. */
  lemma {:induction false} RunKeepsVerified(h: Hash, events: seq<Event>, requests: seq<Request>)
    requires Verified(h, events)
    ensures Verified(h, Run(h, events, requests)) && events <= Run(h, events, requests)
    decreases |requests|
  {
    hide Appended, Verified;
    if requests != [] {
      match Appended(h, events, requests[0])
      case Ok(e) =>
        AppendKeepsVerified(h, events, requests[0]);
        RunKeepsVerified(h, events + [e], requests[1..]);
      case Err(_) =>
        RunKeepsVerified(h, events, requests[1..]);
    }
  }

  // ---------------------------------------------------------------- the log file

  /** The lines `append_event` has written. */
  function LogText(events: seq<Event>): bytes
  {
    if events == [] then [] else Print(Object(events[0])) + ([0x0A] + LogText(events[1..]))
  }

  lemma {:induction false} LogTextAppend(events: seq<Event>, e: Event)
    ensures LogText(events + [e]) == LogText(events) + (Print(Object(e)) + [0x0A])
  {
    hide Print;
    if events == [] {
      assert (events + [e])[1..] == [];
    } else {
      assert (events + [e])[1..] == events[1..] + [e];
      LogTextAppend(events[1..], e);
      var line := Print(Object(e)) + [0x0A];
      ConcatAssociative(Print(Object(events[0])), [0x0A] + LogText(events[1..]), line);
      ConcatAssociative([0x0A], LogText(events[1..]), line);
    }
  }

  /** Every event has a canonical form. */
  predicate AllPrintable(events: seq<Event>) {
    forall i :: 0 <= i < |events| ==> Printable(Object(events[i]))
  }

  /** What `strip` leaves nothing of, in ASCII. */
  predicate Blank(line: bytes) {
    forall i :: 0 <= i < |line| ==> line[i] == 0x20 || 0x09 <= line[i] <= 0x0D || 0x1C <= line[i] <= 0x1F
  }

  /** The objects in the lines that are not blank. */
  function ReadLines(lines: seq<bytes>): Option<seq<Event>> {
    if lines == [] then Some([])
    else if Blank(lines[0]) then ReadLines(lines[1..])
    else
      match ReadJson(lines[0])
      case Some(Object(e)) =>
        (match ReadLines(lines[1..])
         case Some(others) => Some([e] + others)
         case None => None)
      case _ => None
  }

  /** `read_events`. */
  function ReadLog(text: bytes): Option<seq<Event>> {
    ReadLines(SplitLines(text))
  }

  lemma LineOfEvent(e: Event)
    requires Printable(Object(e))
    ensures var line := Print(Object(e));
            0x0A !in line && !Blank(line) && ReadJson(line) == Some(Object(e))
  {
    hide Print, Printable, ReadJson;
    CanonicalReadsBack(Object(e));
    ObjectStarts(Object(e));
    PrintedIsPlain(Object(e));
  }

  lemma ReadsFirst(line: bytes, e: Event, others: seq<bytes>)
    requires !Blank(line) && ReadJson(line) == Some(Object(e))
    ensures ReadLines([line] + others) ==
            match ReadLines(others)
            case Some(es) => Some([e] + es)
            case None => None
  {
    hide Blank, ReadJson;
    assert ([line] + others)[1..] == others;
  }

  lemma ReadsNothing()
    ensures ReadLines([[]]) == Some([])
  {
    var nothing: bytes := [];
    assert [nothing][1..] == [];
  }

  /** Reading gives back exactly what was written. */
  lemma {:induction false} ReadsWhatWasWritten(events: seq<Event>)
    requires AllPrintable(events)
    ensures ReadLog(LogText(events)) == Some(events)
  {
    hide Print, Printable, ReadLines, SplitLines, Blank, ReadJson;
    if events == [] {
      NothingToSplit();
      ReadsNothing();
    } else {
      var line := Print(Object(events[0]));
      LineOfEvent(events[0]);
      SplitFirst(line, LogText(events[1..]));
      ReadsFirst(line, events[0], SplitLines(LogText(events[1..])));
      ReadsWhatWasWritten(events[1..]);
      assert events == [events[0]] + events[1..];
    }
  }

  /** The file determines the events written to it: lines cannot be split or joined differently. */
  lemma LogTextInjective(a: seq<Event>, b: seq<Event>)
    requires AllPrintable(a) && AllPrintable(b) && LogText(a) == LogText(b)
    ensures a == b
  {
    hide *;
    ReadsWhatWasWritten(a);
    ReadsWhatWasWritten(b);
  }

  lemma WrittenReads(text: bytes, events: seq<Event>)
    ensures text == LogText(events) && AllPrintable(events) ==> ReadLog(text) == Some(events)
  {
    hide LogText, AllPrintable, ReadLog;
    if text == LogText(events) && AllPrintable(events) {
      ReadsWhatWasWritten(events);
    }
  }

  /** The log on disk: the bytes of the file, and the events `read_events` finds in it. */
  class LogFile {
    var text: bytes
    var events: seq<Event>

    /** Nothing but appended lines is in the file. */
    ghost predicate Written()
      reads this
    {
      text == LogText(events) && AllPrintable(events)
    }

    /** A file as found, with the events read from it. */
    constructor (text: bytes, events: seq<Event>)
      ensures this.text == text && this.events == events
    {
      this.text, this.events := text, events;
    }

    /** `append_event`. */
    method Append(h: Hash, q: Request) returns (r: Result<Event, LogError>)
      modifies this
      ensures r == Appended(h, old(events), q)
      ensures events == Run(h, old(events), [q])
      ensures text == if r.Ok? then old(text) + (Print(Object(r.value)) + [0x0A]) else old(text)
      ensures r.Ok? ==> Verified(h, events) && events == old(events) + [r.value]
      ensures r.Ok? ==> Records(r.value, q, |old(events)|)
      ensures old(Written()) ==> Written() && ReadLog(text) == Some(events)
    {
      hide Hex, HashEvent, CheckEvent, Verified, NewEvent, Print, Printable, ReadLog, Records;
      OneRequest(h, events, q);
      WrittenReads(text, events);
      var verified := VerifyChain(h, events);
      VerifiedMeans(h, events);
      if verified.Err? {
        return Err(verified.error);
      }
      VerifiedExactly(h, events);
      var previous: Value := Null;
      if events != [] {
        var digest := HashEvent(h, events[|events| - 1]);
        previous := String(Hex(digest.value));
      }
      var event := NewEvent(h, |events|, previous, q);
      var line := Canonicalize(Object(event));
      if line.None? {
        return Err(InvalidValue);
      }
      AppendKeepsVerified(h, events, q);
      AppendedRecords(h, events, q);
      LogTextAppend(events, event);
      text := text + (line.value + [0x0A]);
      events := events + [event];
      WrittenReads(text, events);
      return Ok(event);
    }
  }

  /** Two written files with the same bytes hold the same events. */
  lemma WrittenFilesAgree(f: LogFile, g: LogFile)
    requires f.Written() && g.Written() && f.text == g.text
    ensures f.events == g.events
  {
    hide Print, Printable, LogText;
    LogTextInjective(f.events, g.events);
  }

  lemma VerifiedMeans(h: Hash, events: seq<Event>)
    ensures Verified(h, events) <==> ChainHead(h, events).Ok?
  {
  }

  lemma OneRequest(h: Hash, events: seq<Event>, q: Request)
    ensures Run(h, events, [q])
         == if Appended(h, events, q).Ok? then events + [Appended(h, events, q).value] else events
  {
    hide Appended;
    assert [q][1..] == [];
  }
}
