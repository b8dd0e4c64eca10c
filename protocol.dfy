/**
  The messages the HMR server sends and the client handles, their JSON text
  as `JSON.stringify` writes it, and a reader for that text.
*/
module Protocol {
  import opened Wrappers
  import opened Text
  import opened Json

  /** One entry of an update message's `updates` array. */
  datatype UpdateRecord = UpdateRecord(kind: string, timestamp: nat, path: string, acceptedPath: string)

  /**
    A message. `Update(None)` is an update whose `updates` property is
    undefined; `Other` stands for any message whose `type` is neither
    `connected` nor `update`.
  */
  datatype Payload =
    | Connected
    | Update(updates: Option<seq<UpdateRecord>>)
    | Other(kind: string)

  /** An `Other` message is not one of the two named kinds. */
  predicate WellFormed(p: Payload) {
    p.Other? ==> p.kind != "connected" && p.kind != "update"
  }

  function TypeOf(p: Payload): string {
    match p
    case Connected => "connected"
    case Update(_) => "update"
    case Other(k) => k
  }

  // ---------------------------------------------------------------------------
  // Writing. Each writer appends the text of its value in front of `rest`.

  function WriteRecord(r: UpdateRecord, rest: string): string {
    "{\"type\":" + (Quote(r.kind)
      + (",\"timestamp\":" + (NatToString(r.timestamp)
      + (",\"path\":" + (Quote(r.path)
      + (",\"acceptedPath\":" + (Quote(r.acceptedPath)
      + ("}" + rest))))))))
  }

  /** The records after the first, each preceded by a comma, then `]` and `rest`. */
  function WriteMore(rs: seq<UpdateRecord>, rest: string): string {
    if rs == [] then "]" + rest else "," + WriteRecord(rs[0], WriteMore(rs[1..], rest))
  }

  /** A JSON array of records followed by `rest`. */
  function WriteArray(rs: seq<UpdateRecord>, rest: string): string {
    if rs == [] then "[]" + rest else "[" + WriteRecord(rs[0], WriteMore(rs[1..], rest))
  }

  /**
    `JSON.stringify(payload)`. The `updates` property is left out when it is
    undefined, as `JSON.stringify` leaves out undefined properties.
  */
  function Stringify(p: Payload): string {
    "{\"type\":" + (Quote(TypeOf(p))
      + (if p.Update? && p.updates.Some? then ",\"updates\":" + WriteArray(p.updates.value, "}") else "}"))
  }

  // ---------------------------------------------------------------------------
  // Reading

  /** The text after `lit`, when `t` starts with it. */
  function Expect(t: string, lit: string): (r: Option<string>)
    ensures r.Some? ==> lit + r.value == t
  {
    if StartsWith(t, lit) then
      assert lit + t[|lit|..] == t;
      Some(t[|lit|..])
    else None
  }

  lemma ExpectPrefix(lit: string, t: string)
    ensures Expect(lit + t, lit) == Some(t)
  {
    assert (lit + t)[..|lit|] == lit;
    assert (lit + t)[|lit|..] == t;
  }

  function ReadRecord(t: string): (r: Option<(UpdateRecord, string)>)
    ensures r.Some? ==> |r.value.1| < |t|
  {
    var t1 :- Expect(t, "{\"type\":");
    var kind :- ReadString(t1);
    var t2 :- Expect(kind.1, ",\"timestamp\":");
    var ts :- ReadNat(t2);
    var t3 :- Expect(ts.1, ",\"path\":");
    var path :- ReadString(t3);
    var t4 :- Expect(path.1, ",\"acceptedPath\":");
    var accepted :- ReadString(t4);
    var t5 :- Expect(accepted.1, "}");
    Some((UpdateRecord(kind.0, ts.0, path.0, accepted.0), t5))
  }

  function ReadMore(t: string): (r: Option<(seq<UpdateRecord>, string)>)
    ensures r.Some? ==> |r.value.1| < |t|
    decreases |t|
  {
    if StartsWith(t, "]") then Some(([], t[1..]))
    else if StartsWith(t, ",") then
      var first :- ReadRecord(t[1..]);
      var more :- ReadMore(first.1);
      Some(([first.0] + more.0, more.1))
    else None
  }

  function ReadArray(t: string): (r: Option<(seq<UpdateRecord>, string)>)
  {
    if StartsWith(t, "[]") then Some(([], t[2..]))
    else if StartsWith(t, "[") then
      var first :- ReadRecord(t[1..]);
      var more :- ReadMore(first.1);
      Some(([first.0] + more.0, more.1))
    else None
  }

  /**
    Reads a message in the layout `JSON.stringify` gives it. Any other text,
    including JSON laid out differently, gives `None`.
  */
  function Parse(s: string): Option<Payload> {
    var t1 :- Expect(s, "{\"type\":");
    var kind :- ReadString(t1);
    if kind.1 == "}" then
      Some(if kind.0 == "connected" then Connected else if kind.0 == "update" then Update(None) else Other(kind.0))
    else if kind.0 == "update" then
      var t2 :- Expect(kind.1, ",\"updates\":");
      var arr :- ReadArray(t2);
      if arr.1 == "}" then Some(Update(Some(arr.0))) else None
    else None
  }

  // ---------------------------------------------------------------------------
  // Round trips

  lemma ReadRecordWritten(r: UpdateRecord, rest: string)
    ensures ReadRecord(WriteRecord(r, rest)) == Some((r, rest))
  {
    var t6 := "}" + rest;
    var t5 := Quote(r.acceptedPath) + t6;
    var t4 := ",\"acceptedPath\":" + t5;
    var t3 := Quote(r.path) + t4;
    var t2b := ",\"path\":" + t3;
    var t2 := NatToString(r.timestamp) + t2b;
    var t1b := ",\"timestamp\":" + t2;
    var t1 := Quote(r.kind) + t1b;
    ExpectPrefix("{\"type\":", t1);
    ReadQuoted(r.kind, t1b);
    ExpectPrefix(",\"timestamp\":", t2);
    ReadNatToString(r.timestamp, t2b);
    ExpectPrefix(",\"path\":", t3);
    ReadQuoted(r.path, t4);
    ExpectPrefix(",\"acceptedPath\":", t5);
    ReadQuoted(r.acceptedPath, t6);
    ExpectPrefix("}", rest);
  }

  lemma {:induction false} ReadMoreWritten(rs: seq<UpdateRecord>, rest: string)
    ensures ReadMore(WriteMore(rs, rest)) == Some((rs, rest))
    decreases |rs|
  {
    var t := WriteMore(rs, rest);
    if rs == [] {
      assert t == "]" + rest;
      assert t[1..] == rest;
    } else {
      var tail := WriteMore(rs[1..], rest);
      assert t == "," + WriteRecord(rs[0], tail);
      assert t[1..] == WriteRecord(rs[0], tail);
      assert t[0] == ',';
      assert !StartsWith(t, "]");
      ReadRecordWritten(rs[0], tail);
      ReadMoreWritten(rs[1..], rest);
      ReadMoreComma(t, rs[0], tail, rs[1..], rest);
      assert [rs[0]] + rs[1..] == rs;
    }
  }

  /** A comma, a record, and the rest of the list read as the list with that record in front. */
  lemma ReadMoreComma(t: string, r: UpdateRecord, tail: string, rs: seq<UpdateRecord>, rest: string)
    requires t != [] && t[0] == ','
    requires ReadRecord(t[1..]) == Some((r, tail))
    requires ReadMore(tail) == Some((rs, rest))
    ensures ReadMore(t) == Some(([r] + rs, rest))
  {
  }

  lemma ReadArrayBracket(t: string, r: UpdateRecord, tail: string, rs: seq<UpdateRecord>, rest: string)
    requires t != [] && t[0] == '[' && !StartsWith(t, "[]")
    requires ReadRecord(t[1..]) == Some((r, tail))
    requires ReadMore(tail) == Some((rs, rest))
    ensures ReadArray(t) == Some(([r] + rs, rest))
  {
  }

  lemma ReadArrayWritten(rs: seq<UpdateRecord>, rest: string)
    ensures ReadArray(WriteArray(rs, rest)) == Some((rs, rest))
  {
    var t := WriteArray(rs, rest);
    if rs == [] {
      assert t == "[]" + rest;
      assert t[2..] == rest;
    } else {
      var tail := WriteMore(rs[1..], rest);
      assert t == "[" + WriteRecord(rs[0], tail);
      assert t[1..] == WriteRecord(rs[0], tail);
      assert t[1] == '{';
      assert !StartsWith(t, "[]");
      ReadRecordWritten(rs[0], tail);
      ReadMoreWritten(rs[1..], rest);
      ReadArrayBracket(t, rs[0], tail, rs[1..], rest);
      assert [rs[0]] + rs[1..] == rs;
    }
  }

  /**
    The client reads back exactly the message the server sent: parsing the
    text `JSON.stringify` wrote gives the same payload.
  */
  lemma ParseStringify(p: Payload)
    requires WellFormed(p)
    ensures Parse(Stringify(p)) == Some(p)
  {
    var s := Stringify(p);
    var after := if p.Update? && p.updates.Some? then ",\"updates\":" + WriteArray(p.updates.value, "}") else "}";
    ExpectPrefix("{\"type\":", Quote(TypeOf(p)) + after);
    ReadQuoted(TypeOf(p), after);
    if p.Update? && p.updates.Some? {
      assert after != "}" by {
        assert after[0] == ',';
      }
      ExpectPrefix(",\"updates\":", WriteArray(p.updates.value, "}"));
      ReadArrayWritten(p.updates.value, "}");
    }
  }

  /** Different messages are sent as different text. */
  lemma StringifyInjective(p: Payload, q: Payload)
    requires WellFormed(p) && WellFormed(q)
    requires Stringify(p) == Stringify(q)
    ensures p == q
  {
    ParseStringify(p);
    ParseStringify(q);
  }
}
