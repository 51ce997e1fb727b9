/**
 * The next quotation number (app/api/airtable/next-id/route.ts): the
 * configuration guard in front of the Airtable query, and the successor of
 * the number in the first "Quotation ID" the query returns. The query asks
 * for the records sorted on the text field "Quotation ID", descending, so the
 * first id is the largest in text order, not by number. The query itself is
 * not modelled; its answer enters as the list of the records' "Quotation ID"
 * fields in that order, `None` for a record without one; only the first is
 * used.
 */
module QuotationId {
  import opened JsBuiltins

  // ---------------------------------------------------------------------
  // Configuration guard
  // ---------------------------------------------------------------------

  /** A setting or query parameter counts as given when it is set and not
      the empty string (JavaScript truthiness of a string). */
  predicate Present(v: Option<string>)
  {
    v.Some? && v.value != ""
  }

  /** The names of the three inputs, in the order the guard lists them. */
  const ApiKeyName: string := "AIRTABLE_API_KEY"
  const BaseIdName: string := "NEXT_PUBLIC_AIRTABLE_BASE_ID"
  const TableName: string := "table"

  /** Position of a name in that order. */
  function Rank(name: string): nat
  {
    if name == ApiKeyName then 0 else if name == BaseIdName then 1 else 2
  }

  /** `xs.filter(Boolean)` on names-or-null: the non-empty names, in order. */
  function Compact(xs: seq<Option<string>>): (names: seq<string>)
    ensures |names| <= |xs|
    ensures forall i :: 0 <= i < |names| ==> names[i] != "" && Some(names[i]) in xs
  {
    if xs == [] then []
    else
      var rest := Compact(xs[1..]);
      if Present(xs[0]) then [xs[0].value] + rest else rest
  }

  /** The `missing` list of the 400 reply. */
  function MissingList(apiKey: Option<string>, baseId: Option<string>, table: Option<string>): seq<string>
  {
    Compact([
      if !Present(apiKey) then Some(ApiKeyName) else None,
      if !Present(baseId) then Some(BaseIdName) else None,
      if !Present(table) then Some(TableName) else None])
  }

  /** The list names exactly the inputs that are absent, each once, in the
      fixed order. */
  lemma MissingListExact(apiKey: Option<string>, baseId: Option<string>, table: Option<string>)
    ensures var m := MissingList(apiKey, baseId, table);
      && (ApiKeyName in m <==> !Present(apiKey))
      && (BaseIdName in m <==> !Present(baseId))
      && (TableName in m <==> !Present(table))
      && (forall i :: 0 <= i < |m| ==> m[i] in [ApiKeyName, BaseIdName, TableName])
      && (forall i, j :: 0 <= i < j < |m| ==> Rank(m[i]) < Rank(m[j]))
  {
    var a := if !Present(apiKey) then Some(ApiKeyName) else None;
    var b := if !Present(baseId) then Some(BaseIdName) else None;
    var c := if !Present(table) then Some(TableName) else None;
    CompactThree(a, b, c);
    assert ApiKeyName[0] != BaseIdName[0] && ApiKeyName[0] != TableName[0] && BaseIdName[0] != TableName[0];
    ThreeEntries(a, b, c, ApiKeyName, BaseIdName, TableName);
    var m := Entry(a) + Entry(b) + Entry(c);
    forall i, j | 0 <= i < j < |m|
      ensures Rank(m[i]) < Rank(m[j])
    {
      RanksInOrder(m[i], m[j]);
    }
  }

  /** The guard's order of the three names, as ranks. */
  lemma RanksInOrder(p: string, q: string)
    requires q in [ApiKeyName, BaseIdName, TableName]
    requires (p == ApiKeyName && q != ApiKeyName) || (p == BaseIdName && q == TableName)
    ensures Rank(p) < Rank(q)
  {
    assert ApiKeyName[0] != BaseIdName[0] && ApiKeyName[0] != TableName[0] && BaseIdName[0] != TableName[0];
  }

  /** Three optional entries drawn from three distinct names, in order. */
  lemma ThreeEntries(a: Option<string>, b: Option<string>, c: Option<string>, x: string, y: string, z: string)
    requires a == None || a == Some(x)
    requires b == None || b == Some(y)
    requires c == None || c == Some(z)
    requires x != y && x != z && y != z
    ensures var m := Entry(a) + Entry(b) + Entry(c);
      && (x in m <==> a.Some?) && (y in m <==> b.Some?) && (z in m <==> c.Some?)
      && (forall i :: 0 <= i < |m| ==> m[i] in [x, y, z])
      && (forall i, j :: 0 <= i < j < |m| ==> (m[i] == x && m[j] != x) || (m[i] == y && m[j] == z))
  {
    var ea, eb, ec := Entry(a), Entry(b), Entry(c);
    assert ea == (if a.Some? then [x] else []);
    assert eb == (if b.Some? then [y] else []);
    assert ec == (if c.Some? then [z] else []);
    var m := ea + eb + ec;
    forall i | 0 <= i < |m|
      ensures m[i] == (if i < |ea| then x else if i < |ea| + |eb| then y else z)
    {
      if i < |ea| {
        assert m[i] == ea[i];
      } else if i < |ea| + |eb| {
        assert m[i] == eb[i - |ea|];
      } else {
        assert m[i] == ec[i - |ea| - |eb|];
      }
    }
  }

  /** The name of a given entry, or nothing. */
  function Entry(x: Option<string>): seq<string>
  {
    if x.Some? then [x.value] else []
  }

  /** `filter(Boolean)` on three entries none of which is the empty name. */
  lemma CompactThree(a: Option<string>, b: Option<string>, c: Option<string>)
    requires a != Some("") && b != Some("") && c != Some("")
    ensures Compact([a, b, c]) == Entry(a) + Entry(b) + Entry(c)
  {
    calc {
      Compact([a, b, c]);
      { CompactCons(a, [b, c]); assert [a] + [b, c] == [a, b, c]; }
      Entry(a) + Compact([b, c]);
      { CompactCons(b, [c]); assert [b] + [c] == [b, c]; }
      Entry(a) + (Entry(b) + Compact([c]));
      { CompactCons(c, []); assert [c] + [] == [c]; }
      Entry(a) + (Entry(b) + (Entry(c) + Compact([])));
      { assert Compact([]) == [] && Entry(c) + [] == Entry(c); }
      Entry(a) + Entry(b) + Entry(c);
    }
  }

  /** `filter(Boolean)` keeps or drops the head, then goes on. */
  lemma CompactCons(x: Option<string>, ys: seq<Option<string>>)
    requires x != Some("")
    ensures Compact([x] + ys) == Entry(x) + Compact(ys)
  {
    assert ([x] + ys)[1..] == ys;
  }

  /** What the handler does once it has looked at its inputs. */
  datatype Reply = BadRequest(status: nat, missing: seq<string>) | QueryAirtable

  /** The guard `!API_KEY || !BASE_ID || !table`. */
  function CheckConfig(apiKey: Option<string>, baseId: Option<string>, table: Option<string>): (r: Reply)
    ensures r.BadRequest? ==> r.status == 400 && r.missing == MissingList(apiKey, baseId, table)
  {
    if !Present(apiKey) || !Present(baseId) || !Present(table) then
      BadRequest(400, MissingList(apiKey, baseId, table))
    else QueryAirtable
  }

  /** The handler answers 400 exactly when the missing list is non-empty. */
  lemma BadRequestIffMissing(apiKey: Option<string>, baseId: Option<string>, table: Option<string>)
    ensures CheckConfig(apiKey, baseId, table).BadRequest? <==> MissingList(apiKey, baseId, table) != []
  {
    MissingListExact(apiKey, baseId, table);
    var m := MissingList(apiKey, baseId, table);
    if m != [] {
      assert m[0] in m;
    }
  }

  // ---------------------------------------------------------------------
  // The successor id
  // ---------------------------------------------------------------------

  const DefaultId: string := "Q-00001"

  /** `String(lastId).split('-')[1]`; `None` when there is no '-' (the index
      is then undefined, and `parseInt` of it is NaN). */
  function SecondSegment(id: string): (seg: Option<string>)
    ensures seg.Some? ==> '-' !in seg.value
  {
    var parts := Split(id, '-');
    SplitPiecesFree(id, '-');
    if |parts| >= 2 then Some(parts[1]) else None
  }

  /** `parseInt` cannot read a sign out of a piece that has no '-', so the
      number it gives is never negative. */
  lemma ParseIntNoMinus(s: string)
    requires '-' !in s
    ensures ParseInt(s).Some? ==> ParseInt(s).value >= 0
    ensures ParseInt(s) == match UnsignedPrefix(NumberText(s)) case None => None case Some(m) => Some(m as int)
  {
    var t := TrimStart(s);
    TrimStartSuffix(s);
    if t != [] {
      assert t[0] == s[|s| - |t|];
    }
  }

  /** `parseInt`'s unsigned part reads something only from a text that starts
      with a digit, and from a decimal start it reads the run of digits. */
  lemma UnsignedPrefixStart(u: string)
    ensures UnsignedPrefix(u).Some? ==> u != [] && IsDigit(u[0])
    ensures StartsDecimal(u) ==> UnsignedPrefix(u) == Some(DigitsValue(DigitPrefix(u)))
  {
    if UnsignedPrefix(u).Some? && !(|u| >= 2 && u[0] == '0' && (u[1] == 'x' || u[1] == 'X')) {
      var d := DigitPrefix(u);
      assert d != [] && d[0] == u[0];
    }
  }

  /** What `parseInt` reads its digits from in a piece without '-': the
      piece after its leading whitespace and one optional '+'. */
  function NumberText(seg: string): string
  {
    var t := TrimStart(seg);
    if t != [] && t[0] == '+' then t[1..] else t
  }

  /** A text that starts with a decimal digit and is not a `0x`/`0X` prefix. */
  predicate StartsDecimal(u: string)
  {
    u != [] && IsDigit(u[0]) && !(|u| >= 2 && u[0] == '0' && (u[1] == 'x' || u[1] == 'X'))
  }

  /** `parseInt(String(lastId).split('-')[1])`; `None` stands for NaN. A
      number is read only when the id has a second segment and that segment
      starts, after whitespace and an optional '+', with a digit; when the
      digit does not open a `0x` prefix, the number is the value of the run
      of digits there. */
  function LastNumber(id: string): (k: Option<nat>)
    ensures k.Some? ==>
              && SecondSegment(id).Some?
              && NumberText(SecondSegment(id).value) != []
              && IsDigit(NumberText(SecondSegment(id).value)[0])
    ensures SecondSegment(id).Some? && StartsDecimal(NumberText(SecondSegment(id).value)) ==>
              k == Some(DigitsValue(DigitPrefix(NumberText(SecondSegment(id).value))))
  {
    match SecondSegment(id)
    case None => None
    case Some(seg) =>
      ParseIntNoMinus(seg);
      UnsignedPrefixStart(NumberText(seg));
      match ParseInt(seg)
      case None => None
      case Some(n) => Some(n as nat)
  }

  /** `Q-${String(k + 1).padStart(5, '0')}`. */
  function Successor(k: nat): (id: string)
  {
    "Q-" + PadStart(NatText(k + 1), 5, '0')
  }

  /** The successor is "Q-" and the digits of k + 1, zero-padded to five and
      never cut: the digit part has max(5, digits of k + 1) characters, ends
      with `String(k + 1)` and denotes k + 1. */
  lemma SuccessorShape(k: nat)
    ensures var id := Successor(k); var d := NatText(k + 1);
      && |id| >= 7 && id[..2] == "Q-" && AllDigits(id[2..])
      && |id| - 2 == (if |d| >= 5 then |d| else 5)
      && id[|id| - |d|..] == d
      && DigitsValue(id[2..]) == k + 1
  {
    var d := NatText(k + 1);
    var digits := PadStart(d, 5, '0');
    PadStartDigits(d, 5);
    NatTextValue(k + 1);
    var id := Successor(k);
    assert id[..2] == "Q-" && id[2..] == digits;
    assert id[|id| - |d|..] == digits[|digits| - |d|..];
  }

  /** The id after the given list of "Quotation ID"s, in descending text
      order: the default when there is none, when the first is absent or
      empty, or when no number can be read from it. */
  function NextId(records: seq<Option<string>>): (id: string)
  {
    if records == [] then DefaultId
    else match records[0]
      case None => DefaultId
      case Some(lastId) =>
        if lastId == "" then DefaultId
        else match LastNumber(lastId)
          case None => DefaultId
          case Some(k) => Successor(k)
  }

  /** The default is the successor of 0. */
  lemma DefaultIsFirst()
    ensures Successor(0) == DefaultId
  {
    assert NatText(1) == "1";
    PadStartZeros("1", 5);
  }

  /** The number read from an id, 0 when none can be read. */
  function NumberOr0(id: string): nat
  {
    match LastNumber(id)
    case None => 0
    case Some(k) => k
  }

  /** The number NextId continues from: the one read from the first id, or 0
      when there is no first id. */
  function Previous(records: seq<Option<string>>): nat
  {
    if records == [] || records[0].None? then 0 else NumberOr0(records[0].value)
  }

  /** A "Q-" id whose digits are d, optionally followed by '-' and anything,
      reads back as the value of d; whatever stands before the first '-'
      is not looked at. */
  lemma {:induction false} LastNumberOf(p: string, d: string, rest: string)
    requires '-' !in p && d != [] && AllDigits(d)
    requires rest == [] || rest[0] == '-'
    ensures LastNumber(p + "-" + d + rest) == Some(DigitsValue(d))
  {
    assert forall i :: 0 <= i < |d| ==> d[i] != '-';
    var s := p + "-" + d + rest;
    assert s == p + ['-'] + (d + rest);
    SplitCons(p, '-', d + rest);
    if rest == [] {
      assert d + rest == d;
      SplitNoSep(d, '-');
    } else {
      assert d + rest == d + ['-'] + rest[1..];
      SplitCons(d, '-', rest[1..]);
    }
    assert SecondSegment(s) == Some(d);
    ParseIntDigits(d, []);
    assert d + [] == d;
  }

  /** The number of a successor id reads back as k + 1. */
  lemma SuccessorReadsBack(k: nat)
    ensures LastNumber(Successor(k)) == Some(k + 1)
  {
    SuccessorShape(k);
    var id := Successor(k);
    var d := id[2..];
    assert id == "Q" + "-" + d + "";
    LastNumberOf("Q", d, "");
  }

  /** NextId is the successor of the number it continues from; the empty
      id, which NextId turns down before reading it, reads no number. */
  lemma NextIdIsSuccessor(records: seq<Option<string>>)
    ensures NextId(records) == Successor(Previous(records))
  {
    DefaultIsFirst();
    if records != [] && records[0] == Some("") {
      SplitNoSep("", '-');
      assert LastNumber("") == None;
    }
  }

  /** Every id handed out is "Q-" followed by at least five digits. */
  lemma NextIdShape(records: seq<Option<string>>)
    ensures var id := NextId(records);
      |id| >= 7 && id[..2] == "Q-" && AllDigits(id[2..])
  {
    NextIdIsSuccessor(records);
    SuccessorShape(Previous(records));
  }

  /** Reading the number back from an id handed out gives one more than the
      number it continued from: the ids count up by one. */
  lemma NextIdCountsUp(records: seq<Option<string>>)
    ensures LastNumber(NextId(records)) == Some(Previous(records) + 1)
  {
    NextIdIsSuccessor(records);
    SuccessorReadsBack(Previous(records));
  }

  /** Fed back its own answer, NextId gives the id after it. */
  lemma NextIdOfNextId(records: seq<Option<string>>)
    ensures NextId([Some(NextId(records))]) == Successor(Previous(records) + 1)
  {
    NextIdCountsUp(records);
    var id := NextId(records);
    assert Previous([Some(id)]) == Previous(records) + 1;
    NextIdIsSuccessor([Some(id)]);
  }

  /** An id with no '-' gives the default (its second segment is undefined). */
  lemma NoDash(id: string)
    requires id != "" && '-' !in id
    ensures NextId([Some(id)]) == DefaultId
  {
    SplitNoSep(id, '-');
  }

  /** An id whose second segment does not start with a digit, a sign or
      whitespace gives the default (parseInt yields NaN). */
  lemma {:induction false} NoNumber(p: string, x: string, rest: string)
    requires '-' !in p && '-' !in x
    requires x == [] || (!IsDigit(x[0]) && !IsWhitespace(x[0]) && x[0] != '+')
    requires rest == [] || rest[0] == '-'
    ensures NextId([Some(p + "-" + x + rest)]) == DefaultId
  {
    var s := p + "-" + x + rest;
    assert s == p + ['-'] + (x + rest);
    SplitCons(p, '-', x + rest);
    if rest == [] {
      assert x + rest == x;
      SplitNoSep(x, '-');
    } else {
      assert x + rest == x + ['-'] + rest[1..];
      SplitCons(x, '-', rest[1..]);
    }
    assert SecondSegment(s) == Some(x);
    assert TrimStart(x) == x;
    assert DigitPrefix(x) == [];
  }

  // ---------------------------------------------------------------------
  // Worked values
  // ---------------------------------------------------------------------

  /** No records, a record without the field, or an empty field: the default. */
  lemma NoFirstId(records: seq<Option<string>>)
    requires records == [] || records[0] == None || records[0] == Some("")
    ensures NextId(records) == "Q-00001"
  {
  }

  /** "Q-00041" is followed by "Q-00042". */
  lemma After41(id: string)
    requires id == "Q-00041"
    ensures NextId([Some(id)]) == "Q-00042"
  {
    NumberOf41(id);
    SuccessorOf41(41);
  }

  lemma NumberOf41(id: string)
    requires id == "Q-00041"
    ensures LastNumber(id) == Some(41)
  {
    var d := "00041";
    assert id == "Q" + "-" + d + "";
    assert NatText(41) == "41";
    assert d == Zeros(3) + NatText(41);
    LeadingZerosValue(3, NatText(41));
    NatTextValue(41);
    LastNumberOf("Q", d, "");
  }

  lemma SuccessorOf41(k: nat)
    requires k == 41
    ensures Successor(k) == "Q-00042"
  {
    assert NatText(42) == "42";
    PadStartZeros("42", 5);
  }

  /** Padding does not truncate: "Q-99999" is followed by "Q-100000". */
  lemma After99999(id: string)
    requires id == "Q-99999"
    ensures NextId([Some(id)]) == "Q-100000"
  {
    NumberOf99999(id);
    SuccessorOf99999(99999);
  }

  lemma NumberOf99999(id: string)
    requires id == "Q-99999"
    ensures LastNumber(id) == Some(99999)
  {
    var d := "99999";
    assert id == "Q" + "-" + d + "";
    assert NatText(99999) == d;
    NatTextValue(99999);
    LastNumberOf("Q", d, "");
  }

  lemma SuccessorOf99999(k: nat)
    requires k == 99999
    ensures Successor(k) == "Q-100000"
  {
    assert NatText(100000) == "100000";
  }

  /** The prefix is not checked and text after a second '-' is ignored. */
  lemma OtherPrefix(id: string)
    requires id == "INV-7-2024"
    ensures NextId([Some(id)]) == "Q-00008"
  {
    var d := "7";
    assert id == "INV" + "-" + d + "-2024";
    LastNumberOf("INV", d, "-2024");
    assert NatText(8) == "8";
    PadStartZeros("8", 5);
  }

  /** "Q-abc" and "Q41" give the default. */
  lemma Unreadable(a: string, b: string)
    requires a == "Q-abc" && b == "Q41"
    ensures NextId([Some(a)]) == DefaultId && NextId([Some(b)]) == DefaultId
  {
    assert a == "Q" + "-" + "abc" + "";
    NoNumber("Q", "abc", "");
    NoDash(b);
  }

  // ---------------------------------------------------------------------
  // The query's text order
  // ---------------------------------------------------------------------

  /** a sorts strictly before b in text order, character by character. */
  predicate TextBefore(a: string, b: string)
  {
    if a == [] then b != []
    else if b == [] then false
    else if a[0] != b[0] then a[0] < b[0]
    else TextBefore(a[1..], b[1..])
  }

  /** Ids as a descending sort on their text returns them. */
  predicate DescendingText(ids: seq<string>)
  {
    forall i, j :: 0 <= i < j < |ids| ==> !TextBefore(ids[i], ids[j])
  }

  /** With "Q-99999" and "Q-100000" stored, "Q-100000" sorts first only by
      number: in text order "Q-99999" comes first, so the route answers
      "Q-100000" again, an id that is already stored, and keeps doing so. */
  lemma RepeatsAfter99999()
    ensures var stored := ["Q-99999", "Q-100000"];
      && TextBefore(stored[1], stored[0])
      && DescendingText(stored)
      && NextId([Some(stored[0])]) == stored[1]
  {
    var a, b := "Q-100000", "Q-99999";
    assert a[1..][1..] == "100000" && b[1..][1..] == "99999";
    assert TextBefore(a[1..][1..], b[1..][1..]);
    assert TextBefore(a, b);
    assert !TextBefore(b, a) by {
      assert TextBefore(b, a) == TextBefore(b[1..][1..], a[1..][1..]);
    }
    After99999(b);
  }

  /** The largest number read from any stored id, 0 when there is none. */
  function MaxNumber(ids: seq<string>): (m: nat)
    ensures forall i :: 0 <= i < |ids| ==> NumberOr0(ids[i]) <= m
  {
    if ids == [] then 0
    else
      var m := MaxNumber(ids[1..]);
      if NumberOr0(ids[0]) > m then NumberOr0(ids[0]) else m
  }

  /** The next id as the route evidently means it: one more than the largest
      number stored, whatever the text order of the ids. */
  function NextIdByNumber(ids: seq<string>): string
  {
    Successor(MaxNumber(ids))
  }

  /** The id handed out is never one already stored. */
  lemma NextIdByNumberFresh(ids: seq<string>)
    ensures NextIdByNumber(ids) !in ids
  {
    var m := MaxNumber(ids);
    SuccessorReadsBack(m);
  }

  /** Storing the id handed out and asking again gives the id one further
      on: the numbers count up past "Q-99999". */
  lemma NextIdByNumberCountsOn(ids: seq<string>)
    ensures NextIdByNumber([NextIdByNumber(ids)] + ids) == Successor(MaxNumber(ids) + 1)
  {
    SuccessorNumber(MaxNumber(ids));
    NextAfterLargest(NextIdByNumber(ids), ids);
  }

  /** An id whose number is one above the maximum makes that number the
      new maximum. */
  lemma NextAfterLargest(id: string, ids: seq<string>)
    requires NumberOr0(id) == MaxNumber(ids) + 1
    ensures NextIdByNumber([id] + ids) == Successor(MaxNumber(ids) + 1)
  {
    MaxNumberCons(id, ids);
  }

  /** The number read from the successor of k is k + 1. */
  lemma SuccessorNumber(k: nat)
    ensures NumberOr0(Successor(k)) == k + 1
  {
    SuccessorReadsBack(k);
  }

  /** The maximum of a store with one more id in front. */
  lemma MaxNumberCons(id: string, ids: seq<string>)
    ensures MaxNumber([id] + ids) == if NumberOr0(id) > MaxNumber(ids) then NumberOr0(id) else MaxNumber(ids)
  {
    assert ([id] + ids)[1..] == ids;
  }

  /** For the store of RepeatsAfter99999 the next id by number is "Q-100001". */
  lemma ByNumberAfter100000()
    ensures NextIdByNumber(["Q-99999", "Q-100000"]) == "Q-100001"
  {
    NumberOf99999("Q-99999");
    NumberOf100000("Q-100000");
    NextOfTwo("Q-99999", "Q-100000", 99999, 100000);
    SuccessorOf100000(100000);
  }

  /** Of two stored ids, the next id by number continues from the larger
      number. */
  lemma NextOfTwo(a: string, b: string, x: nat, y: nat)
    requires LastNumber(a) == Some(x) && LastNumber(b) == Some(y) && x <= y
    ensures NextIdByNumber([a, b]) == Successor(y)
  {
    assert NumberOr0(a) == x && NumberOr0(b) == y;
    assert MaxNumber([b]) == y by {
      MaxNumberCons(b, []);
      assert [b] + [] == [b];
    }
    assert MaxNumber([a, b]) == y by {
      MaxNumberCons(a, [b]);
      assert [a] + [b] == [a, b];
    }
  }

  lemma NumberOf100000(id: string)
    requires id == "Q-100000"
    ensures LastNumber(id) == Some(100000)
  {
    var d := "100000";
    assert id == "Q" + "-" + d + "";
    assert NatText(100000) == d;
    NatTextValue(100000);
    LastNumberOf("Q", d, "");
  }

  lemma SuccessorOf100000(k: nat)
    requires k == 100000
    ensures Successor(k) == "Q-100001"
  {
    assert NatText(100001) == "100001";
  }
}
