/**
 * The form-side logic of the quotation page (app/page.tsx): the shipping
 * address taken apart and put back together, the product links of the
 * saved record, the notes built from the terms and the custom fields, the
 * record's field map, the "Created By" guard, the custom-field list edits,
 * the creator options read from the Team table, and the PDF file name.
 * Airtable, Firebase, the DOM and React state are not modelled: what they
 * deliver enters as parameters.
 */
module QuotationPage {
  import opened JsBuiltins
  import ProductTable

  // ---------------------------------------------------------------------
  // Lists of strings
  // ---------------------------------------------------------------------

  /** `xs.map(s => s.trim())`. */
  function TrimAll(xs: seq<string>): (ys: seq<string>)
    ensures |ys| == |xs| && forall i :: 0 <= i < |xs| ==> ys[i] == Trim(xs[i])
  {
    if xs == [] then [] else [Trim(xs[0])] + TrimAll(xs[1..])
  }

  /** `xs.filter(Boolean)` on strings: the non-empty ones, in order. */
  function NonEmpty(xs: seq<string>): (ys: seq<string>)
    ensures |ys| <= |xs|
    ensures forall i :: 0 <= i < |ys| ==> ys[i] != "" && ys[i] in xs
  {
    if xs == [] then []
    else
      var rest := NonEmpty(xs[1..]);
      assert forall i :: 0 <= i < |rest| ==> rest[i] in xs;
      (if xs[0] != "" then [xs[0]] else []) + rest
  }

  lemma {:induction false} TrimAllAppend(a: seq<string>, b: seq<string>)
    ensures TrimAll(a + b) == TrimAll(a) + TrimAll(b)
  {
  }

  lemma {:induction false} NonEmptyAppend(a: seq<string>, b: seq<string>)
    ensures NonEmpty(a + b) == NonEmpty(a) + NonEmpty(b)
  {
    if a != [] {
      var head := if a[0] != "" then [a[0]] else [];
      assert (a + b)[0] == a[0] && (a + b)[1..] == a[1..] + b;
      assert NonEmpty(a + b) == head + NonEmpty(a[1..] + b);
      NonEmptyAppend(a[1..], b);
      assert NonEmpty(a) == head + NonEmpty(a[1..]);
    } else {
      assert a + b == b;
    }
  }

  /** A list whose first k entries are non-empty and whose others are empty
      filters down to its first k entries. */
  lemma {:induction false} NonEmptyPrefix(xs: seq<string>, k: nat)
    requires k <= |xs|
    requires forall i :: 0 <= i < k ==> xs[i] != ""
    requires forall i :: k <= i < |xs| ==> xs[i] == ""
    ensures NonEmpty(xs) == xs[..k]
  {
    if xs != [] {
      if k > 0 {
        NonEmptyPrefix(xs[1..], k - 1);
        assert [xs[0]] + xs[1..][..k - 1] == xs[..k];
      } else {
        NonEmptyPrefix(xs[1..], 0);
      }
    }
  }

  // ---------------------------------------------------------------------
  // Shipping address
  // ---------------------------------------------------------------------

  /** The four "Ship To" fields. */
  datatype ShipTo = ShipTo(address: string, city: string, state: string, zip: string)

  const NoAddress: ShipTo := ShipTo("", "", "", "")

  /** A client as the page sees it: record id and "Shipping Address". */
  datatype Client = Client(id: string, shippingAddress: Option<string>)

  /** `clients.find(cl => cl.id === selectedClient)`, then its address or "". */
  function ExistingAddress(clients: seq<Client>, selectedClient: string): (s: string)
    ensures s != "" ==> exists c :: c in clients && c.id == selectedClient && c.shippingAddress == Some(s)
    ensures (forall c :: c in clients ==> c.id != selectedClient) ==> s == ""
    ensures forall i ::
              (&& 0 <= i < |clients| && clients[i].id == selectedClient
               && (forall j :: 0 <= j < i ==> clients[j].id != selectedClient))
              ==> s == (match clients[i].shippingAddress case None => "" case Some(a) => a)
  {
    if clients == [] then ""
    else if clients[0].id == selectedClient then
      (match clients[0].shippingAddress case None => "" case Some(a) => a)
    else
      var s := ExistingAddress(clients[1..], selectedClient);
      assert forall c :: c in clients[1..] ==> c in clients;
      s
  }

  /** `existing.split(',').map(p => p.trim()).filter(Boolean)`. */
  function AddressParts(existing: string): (parts: seq<string>)
  {
    NonEmpty(TrimAll(Split(existing, ',')))
  }

  /** A part as the split leaves it: non-empty, no whitespace at either
      end (so its own trim), no commas. */
  predicate Clean(p: string)
  {
    p != "" && !IsWhitespace(p[0]) && !IsWhitespace(p[|p| - 1]) && ',' !in p
  }

  /** Every part is clean. */
  lemma AddressPartsClean(existing: string)
    ensures forall i :: 0 <= i < |AddressParts(existing)| ==> Clean(AddressParts(existing)[i])
  {
    var pieces := Split(existing, ',');
    SplitPiecesFree(existing, ',');
    var trimmed := TrimAll(pieces);
    var parts := AddressParts(existing);
    forall i | 0 <= i < |parts|
      ensures Clean(parts[i])
    {
      assert parts[i] in trimmed;
      var j :| 0 <= j < |trimmed| && trimmed[j] == parts[i];
      TrimKeepsOut(pieces[j], ',');
    }
  }

  /** The map's result, given the trim of each entry. */
  lemma TrimAllEach(xs: seq<string>, ys: seq<string>)
    requires |xs| == |ys| && forall i :: 0 <= i < |xs| ==> Trim(xs[i]) == ys[i]
    ensures TrimAll(xs) == ys
  {
  }

  lemma AddressPartsOfEmpty()
    ensures AddressParts("") == []
  {
    assert Split("", ',') == [""];
    assert TrimAll([""]) == [Trim("")];
  }

  /** `parts[i] || ""`. */
  function PartOr(parts: seq<string>, i: nat): string
  {
    if i < |parts| then parts[i] else ""
  }

  /** The prefill effect: an empty address clears the four fields; otherwise
      the first four parts fill them in order and the rest are dropped. */
  function SplitAddress(existing: string): ShipTo
  {
    if existing == "" then NoAddress
    else
      var parts := AddressParts(existing);
      ShipTo(PartOr(parts, 0), PartOr(parts, 1), PartOr(parts, 2), PartOr(parts, 3))
  }

  /** The four fields in order. */
  function FieldList(a: ShipTo): seq<string>
  {
    [a.address, a.city, a.state, a.zip]
  }

  /** The "Shipping Address" written back: the trimmed non-empty fields
      joined by ", ". */
  function JoinAddress(a: ShipTo): string
  {
    Join(NonEmpty(TrimAll(FieldList(a))), ", ")
  }

  /** The fields of a split are the first four parts, "" where there are
      fewer; an empty address has no parts. */
  lemma SplitAddressParts(existing: string)
    ensures FieldList(SplitAddress(existing)) == FirstFour(AddressParts(existing))
  {
    if existing == "" {
      SplitOfEmpty(existing);
    }
  }

  lemma SplitOfEmpty(existing: string)
    requires existing == ""
    ensures FieldList(SplitAddress(existing)) == FirstFour(AddressParts(existing))
  {
    AddressPartsOfEmpty();
  }

  /** Each field of a split is trimmed and comma-free, and it is empty only
      where the address has fewer parts. */
  lemma SplitAddressFields(existing: string, i: nat)
    requires i < 4
    ensures var f := FieldList(SplitAddress(existing))[i];
      && Trim(f) == f && ',' !in f
      && (f == "" <==> i >= |AddressParts(existing)|)
  {
    SplitAddressParts(existing);
    var parts := AddressParts(existing);
    var f := FieldList(SplitAddress(existing))[i];
    FirstFourAt(parts, i);
    if i < |parts| {
      AddressPartsClean(existing);
      assert Clean(parts[i]);
    }
    TrimOfTrimmed(f);
  }

  /** Parts after the fourth are ignored. */
  lemma ExtraPartsIgnored(s: string, t: string)
    requires |AddressParts(s)| >= 4
    ensures SplitAddress(s + "," + t) == SplitAddress(s)
  {
    var x := s + "," + t;
    assert x == s + [','] + t;
    SplitAppend(s, ',', t);
    TrimAllAppend(Split(s, ','), Split(t, ','));
    NonEmptyAppend(TrimAll(Split(s, ',')), TrimAll(Split(t, ',')));
    if s == "" {
      AddressPartsOfEmpty();
    }
  }

  /** ", " between four pieces. */
  lemma JoinFour(a: string, b: string, c: string, d: string)
    ensures Join([a, b, c, d], ", ") == a + [','] + ((" " + b) + [','] + ((" " + c) + [','] + (" " + d)))
  {
    assert [a, b, c, d][1..] == [b, c, d];
    assert [b, c, d][1..] == [c, d];
    assert [c, d][1..] == [d];
    assert Join([c, d], ", ") == c + ", " + d;
  }

  /** Four comma-free pieces joined by commas split back. */
  lemma SplitFour(a: string, b: string, c: string, d: string)
    requires ',' !in a && ',' !in b && ',' !in c && ',' !in d
    ensures Split(a + [','] + (b + [','] + (c + [','] + d)), ',') == [a, b, c, d]
  {
    SplitNoSep(d, ',');
    SplitCons(c, ',', d);
    SplitCons(b, ',', c + [','] + d);
    SplitCons(a, ',', b + [','] + (c + [','] + d));
  }

  /** Splitting a joined address gives the four fields back, when each is
      non-empty, already trimmed and free of commas. */
  lemma SplitOfJoin(a: ShipTo)
    requires Clean(a.address) && Clean(a.city) && Clean(a.state) && Clean(a.zip)
    ensures SplitAddress(JoinAddress(a)) == a
  {
    var s := Joined(a);
    JoinOfClean(a);
    PartsOfJoined(a);
    assert s != "";
    assert AddressParts(s) == FieldList(a);
  }

  /** The four fields with ", " between them. */
  function Joined(a: ShipTo): string
  {
    a.address + [','] + ((" " + a.city) + [','] + ((" " + a.state) + [','] + (" " + a.zip)))
  }

  /** Clean fields are all kept by the join. */
  lemma JoinOfClean(a: ShipTo)
    requires Clean(a.address) && Clean(a.city) && Clean(a.state) && Clean(a.zip)
    ensures JoinAddress(a) == Joined(a)
  {
    var fs := FieldList(a);
    TrimAllClean(fs);
    NonEmptyPrefix(fs, 4);
    assert fs[..4] == fs;
    assert NonEmpty(TrimAll(fs)) == fs;
    assert JoinAddress(a) == Join(fs, ", ");
    JoinFour(a.address, a.city, a.state, a.zip);
  }

  /** The parts of a joined address are its clean fields. */
  lemma PartsOfJoined(a: ShipTo)
    requires Clean(a.address) && Clean(a.city) && Clean(a.state) && Clean(a.zip)
    ensures AddressParts(Joined(a)) == FieldList(a)
  {
    PiecesOfJoined(a);
    TrimmedPieces(a);
    var fs := FieldList(a);
    NonEmptyPrefix(fs, 4);
    assert fs[..4] == fs;
  }

  /** Trimming the pieces of a joined address gives back its clean fields. */
  lemma TrimmedPieces(a: ShipTo)
    requires Clean(a.address) && Clean(a.city) && Clean(a.state) && Clean(a.zip)
    ensures TrimAll([a.address, " " + a.city, " " + a.state, " " + a.zip]) == FieldList(a)
  {
    TrimOfTrimmed(a.address);
    TrimLeadingSpace(a.city);
    TrimLeadingSpace(a.state);
    TrimLeadingSpace(a.zip);
    TrimAllEach([a.address, " " + a.city, " " + a.state, " " + a.zip], FieldList(a));
  }

  /** A joined address splits at its three commas. */
  lemma PiecesOfJoined(a: ShipTo)
    requires ',' !in a.address && ',' !in a.city && ',' !in a.state && ',' !in a.zip
    ensures Split(Joined(a), ',') == [a.address, " " + a.city, " " + a.state, " " + a.zip]
  {
    assert ',' !in " " + a.city && ',' !in " " + a.state && ',' !in " " + a.zip;
    SplitFour(a.address, " " + a.city, " " + a.state, " " + a.zip);
  }

  /** The first four parts, "" standing in for missing ones. */
  function FirstFour(parts: seq<string>): (fs: seq<string>)
    ensures |fs| == 4
  {
    [PartOr(parts, 0), PartOr(parts, 1), PartOr(parts, 2), PartOr(parts, 3)]
  }

  /** Field i of the first four is part i, or "" when there is none. */
  lemma FirstFourAt(parts: seq<string>, i: nat)
    requires i < 4
    ensures FirstFour(parts)[i] == PartOr(parts, i)
  {
  }

  lemma FirstFourTrimmed(parts: seq<string>)
    requires forall i :: 0 <= i < |parts| ==> Clean(parts[i])
    ensures TrimAll(FirstFour(parts)) == FirstFour(parts)
  {
    var fs := FirstFour(parts);
    forall i | 0 <= i < 4
      ensures Trim(fs[i]) == fs[i]
    {
      if i < |parts| {
        assert Clean(parts[i]);
        TrimOfTrimmed(parts[i]);
      }
    }
    TrimAllEach(fs, fs);
  }

  /** Clean strings are left alone by the map. */
  lemma {:induction false} TrimAllClean(xs: seq<string>)
    requires forall i :: 0 <= i < |xs| ==> Clean(xs[i])
    ensures TrimAll(xs) == xs
  {
    if xs != [] {
      assert Clean(xs[0]);
      TrimOfTrimmed(xs[0]);
      assert forall i :: 0 <= i < |xs[1..]| ==> xs[1..][i] == xs[i + 1];
      TrimAllClean(xs[1..]);
      assert [xs[0]] + xs[1..] == xs;
    }
  }

  lemma FirstFourNonEmpty(parts: seq<string>)
    requires forall i :: 0 <= i < |parts| ==> parts[i] != ""
    ensures NonEmpty(FirstFour(parts)) == parts[..if |parts| < 4 then |parts| else 4]
  {
    var fs := FirstFour(parts);
    var k := if |parts| < 4 then |parts| else 4;
    NonEmptyPrefix(fs, k);
    assert fs[..k] == parts[..k];
  }

  /** The first four of a list of clean parts, padded with "", join back
      to those parts. */
  lemma JoinFirstFour(parts: seq<string>)
    requires forall i :: 0 <= i < |parts| ==> Clean(parts[i])
    ensures NonEmpty(TrimAll(FirstFour(parts))) == parts[..if |parts| < 4 then |parts| else 4]
  {
    FirstFourTrimmed(parts);
    assert forall i :: 0 <= i < |parts| ==> parts[i] != "";
    FirstFourNonEmpty(parts);
  }

  /** Joining the fields of a split gives the first four parts joined by ", ":
      the address comes back normalised (spaces around parts and empty
      parts dropped, at most four parts kept). */
  lemma JoinOfSplit(existing: string)
    ensures var parts := AddressParts(existing);
      JoinAddress(SplitAddress(existing)) == Join(parts[..if |parts| < 4 then |parts| else 4], ", ")
  {
    SplitAddressParts(existing);
    AddressPartsClean(existing);
    JoinFirstFour(AddressParts(existing));
  }

  // ---------------------------------------------------------------------
  // Product links
  // ---------------------------------------------------------------------

  /** Position of the first occurrence of x in xs. */
  function FirstIndex(xs: seq<string>, x: string): (i: nat)
    requires x in xs
    ensures i < |xs| && xs[i] == x && x !in xs[..i]
  {
    if xs[0] == x then 0 else 1 + FirstIndex(xs[1..], x)
  }

  lemma FirstIndexAppend(xs: seq<string>, y: string, x: string)
    requires x in xs
    ensures FirstIndex(xs + [y], x) == FirstIndex(xs, x)
  {
    var i := FirstIndex(xs, x);
    assert (xs + [y])[i] == x;
  }

  lemma FirstIndexNew(xs: seq<string>, y: string)
    requires y !in xs
    ensures FirstIndex(xs + [y], y) == |xs|
  {
    assert (xs + [y])[|xs|] == y;
  }

  /** `Array.from(new Set(ids.filter(Boolean)))`: each non-empty id once, in
      the order of first occurrence. */
  function DistinctIds(ids: seq<string>): (r: seq<string>)
    ensures forall x :: x in r <==> x in ids && x != ""
    ensures forall i, j :: 0 <= i < j < |r| ==> r[i] != r[j]
  {
    if ids == [] then []
    else
      var init := ids[..|ids| - 1];
      var last := ids[|ids| - 1];
      var r := DistinctIds(init);
      assert ids == init + [last];
      if last == "" || last in r then r else r + [last]
  }

  /** The ids come out in the order of their first occurrence. */
  lemma {:induction false} DistinctIdsOrder(ids: seq<string>)
    ensures forall i, j :: 0 <= i < j < |DistinctIds(ids)| ==>
      FirstIndex(ids, DistinctIds(ids)[i]) < FirstIndex(ids, DistinctIds(ids)[j])
  {
    if ids != [] {
      var init := ids[..|ids| - 1];
      var last := ids[|ids| - 1];
      assert ids == init + [last];
      DistinctIdsOrder(init);
      var r0 := DistinctIds(init);
      var r := DistinctIds(ids);
      forall i, j | 0 <= i < j < |r|
        ensures FirstIndex(ids, r[i]) < FirstIndex(ids, r[j])
      {
        assert r[i] == r0[i] && r[i] in r0;
        FirstIndexAppend(init, last, r[i]);
        assert FirstIndex(ids, r[i]) == FirstIndex(init, r0[i]);
        if j < |r0| {
          assert r[j] == r0[j] && r[j] in r0;
          FirstIndexAppend(init, last, r[j]);
          assert FirstIndex(ids, r[j]) == FirstIndex(init, r0[j]);
          assert FirstIndex(init, r0[i]) < FirstIndex(init, r0[j]);
        } else {
          assert r[j] == last && last !in init;
          FirstIndexNew(init, last);
          assert FirstIndex(ids, r[j]) == |init|;
        }
      }
    }
  }

  /** `lines.map(l => l.productId)`. */
  function ProductIds(lines: seq<ProductTable.Line>): (ids: seq<string>)
    ensures |ids| == |lines| && forall i :: 0 <= i < |lines| ==> ids[i] == lines[i].productId
  {
    if lines == [] then [] else [lines[0].productId] + ProductIds(lines[1..])
  }

  /** `productRecordIds`. */
  function ProductRecordIds(lines: seq<ProductTable.Line>): seq<string>
  {
    DistinctIds(ProductIds(lines))
  }

  /** There are product links exactly when some line has a product chosen. */
  lemma HasProductLinks(lines: seq<ProductTable.Line>)
    ensures |ProductRecordIds(lines)| > 0 <==> exists l :: l in lines && l.productId != ""
  {
    var pids := ProductIds(lines);
    var ids := ProductRecordIds(lines);
    if exists l :: l in lines && l.productId != "" {
      var l :| l in lines && l.productId != "";
      var i :| 0 <= i < |lines| && lines[i] == l;
      assert pids[i] in ids;
    } else if |ids| > 0 {
      assert ids[0] in pids;
    }
  }

  // ---------------------------------------------------------------------
  // Custom fields and notes
  // ---------------------------------------------------------------------

  /** An entry of "Add More Fields". */
  datatype CustomField = CustomField(id: string, name: string, value: string)

  const NoteHeader: string := "\n\n--- Custom Fields ---\n"

  /** `${cf.name || 'Field'}: ${cf.value || ''}`. */
  function NoteLine(cf: CustomField): string
  {
    (if cf.name == "" then "Field" else cf.name) + ": " + cf.value
  }

  function NoteLines(cfs: seq<CustomField>): (ls: seq<string>)
    ensures |ls| == |cfs| && forall i :: 0 <= i < |cfs| ==> ls[i] == NoteLine(cfs[i])
  {
    if cfs == [] then [] else [NoteLine(cfs[0])] + NoteLines(cfs[1..])
  }

  /** `customFieldsNote`: nothing for no fields, else the header and one
      line per field. */
  function CustomFieldsNote(cfs: seq<CustomField>): string
  {
    if |cfs| == 0 then "" else NoteHeader + Join(NoteLines(cfs), "\n")
  }

  /** The note is empty exactly when there are no custom fields; otherwise
      it is the header followed by the lines, which split back one per
      field, in order, when no name or value holds a line break. */
  lemma NoteReadsBack(cfs: seq<CustomField>)
    requires forall cf :: cf in cfs ==> '\n' !in cf.name && '\n' !in cf.value
    ensures CustomFieldsNote(cfs) == "" <==> cfs == []
    ensures cfs != [] ==>
      && CustomFieldsNote(cfs)[..|NoteHeader|] == NoteHeader
      && Split(CustomFieldsNote(cfs)[|NoteHeader|..], '\n') == NoteLines(cfs)
  {
    if cfs != [] {
      var ls := NoteLines(cfs);
      forall i | 0 <= i < |ls|
        ensures '\n' !in ls[i]
      {
        assert cfs[i] in cfs;
      }
      SplitJoin(ls, '\n');
      var note := CustomFieldsNote(cfs);
      assert note[|NoteHeader|..] == Join(ls, "\n");
    }
  }

  /** A field without a name is listed as "Field". */
  lemma UnnamedField(cf: CustomField)
    requires cf.name == ""
    ensures NoteLine(cf) == "Field: " + cf.value
  {
  }

  /** `${termsBase}${customFieldsNote}`.trim(), termsBase being the trimmed
      text of the terms block. */
  function Terms(termsText: string, cfs: seq<CustomField>): string
  {
    Trim(Trim(termsText) + CustomFieldsNote(cfs))
  }

  /** Without custom fields the notes are the trimmed terms. */
  lemma TermsWithoutFields(termsText: string)
    ensures Terms(termsText, []) == Trim(termsText)
  {
    assert Trim(termsText) + "" == Trim(termsText);
    TrimTwice(termsText);
  }

  /** Renaming entry `id`: only entries with that id change, and only their name. */
  function Rename(cfs: seq<CustomField>, id: string, name: string): (r: seq<CustomField>)
    ensures |r| == |cfs|
    ensures forall i :: 0 <= i < |cfs| ==>
      r[i] == (if cfs[i].id == id then CustomField(id, name, cfs[i].value) else cfs[i])
  {
    if cfs == [] then []
    else [if cfs[0].id == id then cfs[0].(name := name) else cfs[0]] + Rename(cfs[1..], id, name)
  }

  /** Setting the value of entry `id`: only entries with that id change, and
      only their value. */
  function SetValue(cfs: seq<CustomField>, id: string, value: string): (r: seq<CustomField>)
    ensures |r| == |cfs|
    ensures forall i :: 0 <= i < |cfs| ==>
      r[i] == (if cfs[i].id == id then CustomField(id, cfs[i].name, value) else cfs[i])
  {
    if cfs == [] then []
    else [if cfs[0].id == id then cfs[0].(value := value) else cfs[0]] + SetValue(cfs[1..], id, value)
  }

  /** `filter(x => x.id !== id)`. */
  function RemoveField(cfs: seq<CustomField>, id: string): (r: seq<CustomField>)
    ensures |r| <= |cfs|
  {
    if cfs == [] then []
    else (if cfs[0].id != id then [cfs[0]] else []) + RemoveField(cfs[1..], id)
  }

  /** Removing keeps exactly the entries whose id differs. */
  lemma {:induction false} RemoveFieldMembers(cfs: seq<CustomField>, id: string)
    ensures forall x :: x in RemoveField(cfs, id) <==> x in cfs && x.id != id
  {
    if cfs != [] {
      RemoveFieldMembers(cfs[1..], id);
      assert forall x :: x in cfs <==> x == cfs[0] || x in cfs[1..];
    }
  }

  /** Removing an id that occurs once shortens the list by one and keeps the
      others in order. */
  lemma {:induction false} RemoveUnique(cfs: seq<CustomField>, k: nat)
    requires k < |cfs|
    requires forall i :: 0 <= i < |cfs| && i != k ==> cfs[i].id != cfs[k].id
    ensures RemoveField(cfs, cfs[k].id) == cfs[..k] + cfs[k + 1..]
  {
    var id := cfs[k].id;
    if k == 0 {
      KeepAll(cfs[1..], id);
    } else {
      RemoveUnique(cfs[1..], k - 1);
      assert [cfs[0]] + (cfs[1..][..k - 1] + cfs[1..][k..]) == cfs[..k] + cfs[k + 1..];
    }
  }

  lemma {:induction false} KeepAll(cfs: seq<CustomField>, id: string)
    requires forall i :: 0 <= i < |cfs| ==> cfs[i].id != id
    ensures RemoveField(cfs, id) == cfs
  {
    if cfs != [] {
      KeepAll(cfs[1..], id);
    }
  }

  /** "Add More Fields": one entry at the end, with a fresh id (random in
      the page, a parameter here). */
  function AddField(cfs: seq<CustomField>, newId: string): (r: seq<CustomField>)
    ensures |r| == |cfs| + 1 && r[..|cfs|] == cfs
    ensures r[|cfs|] == CustomField(newId, "Field Name", "Value")
  {
    cfs + [CustomField(newId, "Field Name", "Value")]
  }

  /** Adding a field adds the line "Field Name: Value" at the end of the note. */
  lemma NoteAfterAdd(cfs: seq<CustomField>, newId: string)
    ensures CustomFieldsNote(AddField(cfs, newId)) ==
      (if cfs == [] then NoteHeader else CustomFieldsNote(cfs) + "\n") + "Field Name: Value"
  {
    var added := CustomField(newId, "Field Name", "Value");
    assert AddField(cfs, newId) == cfs + [added];
    NoteSnoc(cfs, added);
    assert NoteLine(added) == "Field Name: Value";
  }

  /** A field added at the end puts its line at the end of the note. */
  lemma NoteSnoc(cfs: seq<CustomField>, cf: CustomField)
    ensures CustomFieldsNote(cfs + [cf]) ==
      (if cfs == [] then NoteHeader else CustomFieldsNote(cfs) + "\n") + NoteLine(cf)
  {
    var ls, l := NoteLines(cfs), NoteLine(cf);
    NoteLinesSnoc(cfs, cf);
    JoinSnoc(ls, l, "\n");
    assert CustomFieldsNote(cfs + [cf]) == NoteHeader + Join(ls + [l], "\n");
    if cfs == [] {
      assert Join(ls + [l], "\n") == l;
    } else {
      assert CustomFieldsNote(cfs) == NoteHeader + Join(ls, "\n");
      assert Join(ls + [l], "\n") == Join(ls, "\n") + "\n" + l;
    }
  }

  /** A field added at the end adds its line at the end. */
  lemma NoteLinesSnoc(cfs: seq<CustomField>, cf: CustomField)
    ensures NoteLines(cfs + [cf]) == NoteLines(cfs) + [NoteLine(cf)]
  {
    var r := cfs + [cf];
    assert forall i :: 0 <= i < |cfs| ==> r[i] == cfs[i];
  }

  lemma {:induction false} JoinSnoc(parts: seq<string>, x: string, sep: string)
    ensures Join(parts + [x], sep) == (if parts == [] then "" else Join(parts, sep) + sep) + x
  {
    if parts != [] {
      if |parts| == 1 {
        assert parts + [x] == [parts[0], x];
      } else {
        assert (parts + [x])[1..] == parts[1..] + [x];
        JoinSnoc(parts[1..], x, sep);
      }
    } else {
      assert parts + [x] == [x];
    }
  }

  // ---------------------------------------------------------------------
  // Team options
  // ---------------------------------------------------------------------

  /** A Team record: id and the three name fields the page looks at. */
  datatype TeamRecord = TeamRecord(id: string, name: string, employeeName: string, fullName: string)

  datatype TeamOption = TeamOption(id: string, name: string)

  /** `fields['Name'] || fields['Employee Name'] || fields['Full Name'] || ''`. */
  function DisplayName(r: TeamRecord): (nm: string)
    ensures nm in {r.name, r.employeeName, r.fullName, ""}
    ensures nm == "" <==> r.name == "" && r.employeeName == "" && r.fullName == ""
  {
    if r.name != "" then r.name else if r.employeeName != "" then r.employeeName else r.fullName
  }

  /** The options: records with a name, in order, each as id and name. */
  function TeamOptions(team: seq<TeamRecord>): (opts: seq<TeamOption>)
    ensures |opts| <= |team|
    ensures forall i :: 0 <= i < |opts| ==> opts[i].name != ""
  {
    if team == [] then []
    else
      var r := team[0];
      (if DisplayName(r) != "" then [TeamOption(r.id, DisplayName(r))] else []) + TeamOptions(team[1..])
  }

  /** The options are exactly the records with a name, as id and name. */
  lemma {:induction false} TeamOptionsMembers(team: seq<TeamRecord>)
    ensures forall r :: r in team && DisplayName(r) != "" ==> TeamOption(r.id, DisplayName(r)) in TeamOptions(team)
    ensures forall o :: o in TeamOptions(team) ==> exists r :: r in team && o == TeamOption(r.id, DisplayName(r))
  {
    if team != [] {
      TeamOptionsMembers(team[1..]);
      assert forall x :: x in team <==> x == team[0] || x in team[1..];
    }
  }

  /** The options of two lists of records are the options of each, in order. */
  lemma {:induction false} TeamOptionsAppend(a: seq<TeamRecord>, b: seq<TeamRecord>)
    ensures TeamOptions(a + b) == TeamOptions(a) + TeamOptions(b)
  {
    if a != [] {
      var r := a[0];
      var head := if DisplayName(r) != "" then [TeamOption(r.id, DisplayName(r))] else [];
      assert (a + b)[0] == r && (a + b)[1..] == a[1..] + b;
      assert TeamOptions(a + b) == head + TeamOptions(a[1..] + b);
      TeamOptionsAppend(a[1..], b);
      assert TeamOptions(a) == head + TeamOptions(a[1..]);
    } else {
      assert a + b == b;
    }
  }

  /** `if (opts.length) setCreatorOptions(opts)`: an answer without any
      named record keeps the options there were. */
  function CreatorOptions(current: seq<TeamOption>, team: seq<TeamRecord>): seq<TeamOption>
  {
    var opts := TeamOptions(team);
    if |opts| > 0 then opts else current
  }

  lemma CreatorOptionsKept(current: seq<TeamOption>, team: seq<TeamRecord>)
    ensures CreatorOptions(current, team) == current <==>
      TeamOptions(team) == current || forall r :: r in team ==> DisplayName(r) == ""
  {
    TeamOptionsMembers(team);
    if forall r :: r in team ==> DisplayName(r) == "" {
      if TeamOptions(team) != [] {
        var o := TeamOptions(team)[0];
        assert o in TeamOptions(team);
      }
    } else {
      var r :| r in team && DisplayName(r) != "";
      assert TeamOption(r.id, DisplayName(r)) in TeamOptions(team);
    }
  }

  // ---------------------------------------------------------------------
  // The record and the file name
  // ---------------------------------------------------------------------

  /** A value in the Airtable field map. */
  datatype FieldValue = Text(text: string) | Number(number: real) | Links(ids: seq<string>) | Undefined

  /** The keys every record carries. */
  const BaseKeys: set<string> :=
    {"Quotation ID", "Quotation Date", "Expiry Date", "Total Cost", "GST", "Created By", "Status"}

  /** The `fields` object: the fixed entries, then "Client", "Product" and
      "Notes" added one by one when there is something to put there. */
  method BuildFields(quotationNo: string, quotationDate: string, dueDate: string,
                     grandTotal: real, cgst: real, sgst: real, createdBy: string,
                     selectedClient: string, productRecordIds: seq<string>, terms: string)
    returns (fields: map<string, FieldValue>)
    ensures fields.Keys == BaseKeys
      + (if selectedClient != "" then {"Client"} else {})
      + (if |productRecordIds| > 0 then {"Product"} else {})
      + (if terms != "" then {"Notes"} else {})
    ensures ("Client" in fields <==> selectedClient != "") && ("Product" in fields <==> |productRecordIds| > 0)
    ensures "Notes" in fields <==> terms != ""
    ensures fields["Quotation ID"] == Text(quotationNo)
    ensures fields["Quotation Date"] == Text(quotationDate) && fields["Expiry Date"] == Text(dueDate)
    ensures fields["Total Cost"] == Number(grandTotal) && fields["GST"] == Number(cgst + sgst)
    ensures fields["Created By"] == if createdBy != "" then Links([createdBy]) else Undefined
    ensures fields["Status"] == Text("Draft")
    ensures "Client" in fields ==> fields["Client"] == Links([selectedClient])
    ensures "Product" in fields ==> fields["Product"] == Links(productRecordIds)
    ensures "Notes" in fields ==> fields["Notes"] == Text(terms)
  {
    fields := map[
      "Quotation ID" := Text(quotationNo),
      "Quotation Date" := Text(quotationDate),
      "Expiry Date" := Text(dueDate),
      "Total Cost" := Number(grandTotal),
      "GST" := Number(cgst + sgst),
      "Created By" := if createdBy != "" then Links([createdBy]) else Undefined,
      "Status" := Text("Draft")];
    if selectedClient != "" {
      fields := fields["Client" := Links([selectedClient])];
    }
    if |productRecordIds| > 0 {
      fields := fields["Product" := Links(productRecordIds)];
    }
    if terms != "" {
      fields := fields["Notes" := Text(terms)];
    }
  }

  /** How `handleGenerateAndSave` starts. */
  datatype Start = AskForCreator | CreateRecord(fields: map<string, FieldValue>)

  /** The text-only first step of saving: without a "Created By" nothing is
      built and the user is asked to choose one; otherwise the product links
      and the notes are derived and the record's fields assembled. */
  method StartSave(createdBy: string, quotationNo: string, quotationDate: string, dueDate: string,
                   grandTotal: real, cgst: real, sgst: real, selectedClient: string,
                   lines: seq<ProductTable.Line>, termsText: string, customFields: seq<CustomField>)
    returns (s: Start)
    ensures s.AskForCreator? <==> createdBy == ""
    ensures s.CreateRecord? ==>
      && "Created By" in s.fields && s.fields["Created By"] == Links([createdBy])
      && ("Product" in s.fields <==> exists l :: l in lines && l.productId != "")
      && ("Product" in s.fields ==> s.fields["Product"] == Links(ProductRecordIds(lines)))
      && ("Notes" in s.fields <==> Terms(termsText, customFields) != "")
      && ("Notes" in s.fields ==> s.fields["Notes"] == Text(Terms(termsText, customFields)))
      && ("Client" in s.fields <==> selectedClient != "")
      && ("Client" in s.fields ==> s.fields["Client"] == Links([selectedClient]))
    ensures s.CreateRecord? ==>
      && s.fields.Keys == BaseKeys
           + (if selectedClient != "" then {"Client"} else {})
           + (if |ProductRecordIds(lines)| > 0 then {"Product"} else {})
           + (if Terms(termsText, customFields) != "" then {"Notes"} else {})
      && s.fields["Quotation ID"] == Text(quotationNo)
      && s.fields["Quotation Date"] == Text(quotationDate) && s.fields["Expiry Date"] == Text(dueDate)
      && s.fields["Total Cost"] == Number(grandTotal) && s.fields["GST"] == Number(cgst + sgst)
      && s.fields["Status"] == Text("Draft")
  {
    if createdBy == "" {
      return AskForCreator;
    }
    var ids := ProductRecordIds(lines);
    var terms := Terms(termsText, customFields);
    var fields := BuildFields(quotationNo, quotationDate, dueDate, grandTotal, cgst, sgst,
                              createdBy, selectedClient, ids, terms);
    HasProductLinks(lines);
    s := CreateRecord(fields);
  }

  /** The characters the file name must not contain: / \ ? % * : | " < >. */
  predicate Unsafe(c: char)
  {
    c == '/' || c == '\\' || c == '?' || c == '%' || c == '*' || c == ':' || c == '|' || c == '"'
    || c == '<' || c == '>'
  }

  /** `${quotationNo.replace(/[/\\?%*:|"<>]/g, '-')}.pdf`. */
  function FileName(quotationNo: string): (f: string)
  {
    seq(|quotationNo|, i requires 0 <= i < |quotationNo| =>
      if Unsafe(quotationNo[i]) then '-' else quotationNo[i]) + ".pdf"
  }

  /** The file name is the number with every unsafe character turned into
      '-' and the rest kept, then ".pdf": four characters longer, and with
      no unsafe character left. */
  lemma FileNameShape(q: string)
    ensures var f := FileName(q);
      && |f| == |q| + 4
      && f[|q|..] == ".pdf"
      && (forall i :: 0 <= i < |q| ==> (Unsafe(q[i]) ==> f[i] == '-') && (!Unsafe(q[i]) ==> f[i] == q[i]))
      && (forall i :: 0 <= i < |f| ==> !Unsafe(f[i]))
  {
  }

  /** A number without unsafe characters, such as "Q-00042", is kept as it is. */
  lemma FileNameOfSafe(q: string)
    requires forall i :: 0 <= i < |q| ==> !Unsafe(q[i])
    ensures FileName(q) == q + ".pdf"
  {
    var f := FileName(q);
    assert f[..|q|] == q;
  }
}
