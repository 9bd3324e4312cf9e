/** The fetched tournament records: their fields, the column keys an Event
    copies, and `formatAddress`. */
module Records {
  import opened Wrappers
  import opened Strings
  import opened Calendar

  /** A geocoding result: `geometry.location.{lat,lng}` and, when present,
      `formatted_address`. */
  datatype Location = Location(lat: real, lng: real, formattedAddress: Option<string>)

  /** One entry of the fetched `pptqs` array: its text properties (a key
      that is absent reads as `undefined`) and its optional `location`. */
  datatype Record = Record(fields: map<string, string>, location: Option<Location>)

  /** The fetched JSON document; `pptqs` may be missing. */
  datatype Payload = Payload(pptqs: Option<seq<Record>>)

  /** The records renderEvents walks over: iterating over a missing
      `pptqs` visits nothing. */
  function PptqsOf(data: Payload): seq<Record> {
    if data.pptqs.Some? then data.pptqs.value else []
  }

  /** The properties an Event copies from its record, in table-column order. */
  const ColumnKeys: seq<string> :=
    ["startDate", "format", "venueName", "venueAddress", "city", "region", "country", "email"]

  /** The address levels formatAddress reads, in the order it joins them. */
  const AddressLevels: seq<string> := ["city", "region", "country"]

  /** `obj[key]`, `undefined` when the key is absent. */
  function Lookup(obj: map<string, string>, key: string): Option<string> {
    if key in obj then Some(obj[key]) else None
  }

  /** The `map` step of formatAddress: one looked-up term per key. */
  function LookupAll(obj: map<string, string>, keys: seq<string>): (terms: seq<Option<string>>)
    ensures |terms| == |keys|
    ensures forall k :: 0 <= k < |keys| ==> terms[k] == Lookup(obj, keys[k])
    decreases |keys|
  {
    if |keys| == 0 then [] else [Lookup(obj, keys[0])] + LookupAll(obj, keys[1..])
  }

  /** What the `filter` step keeps of one term: its value when it is
      defined and non-empty, otherwise nothing. */
  function Kept(term: Option<string>): seq<string> {
    if term.Some? && term.value != "" then [term.value] else []
  }

  /** The `filter` step: the terms that are defined and non-empty, in order. */
  function KeepNonEmpty(terms: seq<Option<string>>): (kept: seq<string>)
    ensures |kept| <= |terms|
    ensures forall k :: 0 <= k < |kept| ==> kept[k] != ""
    ensures forall t :: t in kept <==> t != "" && Some(t) in terms
    decreases |terms|
  {
    if |terms| == 0 then []
    else
      var rest := KeepNonEmpty(terms[1..]);
      assert forall t :: Some(t) in terms <==> Some(t) == terms[0] || Some(t) in terms[1..];
      Kept(terms[0]) + rest
  }

  /** Filtering three terms keeps each of them, in order, exactly when it is
      defined and non-empty. */
  lemma KeepThree(x: Option<string>, y: Option<string>, z: Option<string>)
    ensures KeepNonEmpty([x, y, z]) == Kept(x) + Kept(y) + Kept(z)
  {
    assert [x, y, z][1..] == [y, z] && [y, z][1..] == [z] && [z][1..] == [];
    assert KeepNonEmpty([z]) == Kept(z);
    assert KeepNonEmpty([y, z]) == Kept(y) + Kept(z);
  }

  /** The address terms that formatAddress joins. */
  function AddressTerms(obj: map<string, string>): seq<string> {
    KeepNonEmpty(LookupAll(obj, AddressLevels))
  }

  /** `formatAddress`: the defined, non-empty terms among city, region and
      country, joined by ", ". */
  function FormatAddress(obj: map<string, string>): string {
    Join(AddressTerms(obj), ", ")
  }

  /** The term one address level contributes: its value when it is defined
      and non-empty, otherwise nothing. */
  function Present(obj: map<string, string>, level: string): seq<string> {
    Kept(Lookup(obj, level))
  }

  /** The terms come in the fixed order city, region, country, each kept
      exactly when it is defined and non-empty. */
  lemma AddressTermsInOrder(obj: map<string, string>)
    ensures AddressTerms(obj) == Present(obj, "city") + Present(obj, "region") + Present(obj, "country")
  {
    assert LookupAll(obj, AddressLevels) == [Lookup(obj, "city"), Lookup(obj, "region"), Lookup(obj, "country")];
    KeepThree(Lookup(obj, "city"), Lookup(obj, "region"), Lookup(obj, "country"));
  }

  /** The address is empty exactly when all three levels are undefined or empty. */
  lemma FormatAddressEmpty(obj: map<string, string>)
    ensures FormatAddress(obj) == "" <==> forall level :: level in AddressLevels ==> Present(obj, level) == []
  {
    AddressTermsInOrder(obj);
    var terms := AddressTerms(obj);
    if |terms| > 0 {
      assert |Join(terms, ", ")| >= |terms[0]| > 0;
    }
  }

  /** When no term contains a comma, cutting the address at ", " gives back
      exactly the kept terms; in particular no segment is empty. */
  lemma FormatAddressSegments(obj: map<string, string>)
    requires forall level :: level in AddressLevels && level in obj ==> ',' !in obj[level]
    requires FormatAddress(obj) != ""
    ensures Split(FormatAddress(obj), ", ") == AddressTerms(obj)
    ensures forall k :: 0 <= k < |AddressTerms(obj)| ==> AddressTerms(obj)[k] != ""
  {
    AddressTermsInOrder(obj);
    var terms := AddressTerms(obj);
    assert |terms| >= 1;
    forall k | 0 <= k < |terms| ensures ", "[0] !in terms[k] {
      assert terms[k] in terms;
    }
    SplitJoin(terms, ", ");
  }

  /** `new Date(Date.parse(pptq.startDate))`. Date.parse is given as the
      table `parses` from the texts it can read to the dates they denote; any
      other text, and an absent start date, gives NaN. */
  function StartDateOf(pptq: Record, parses: map<string, Date>): JsDate {
    if "startDate" in pptq.fields && pptq.fields["startDate"] in parses
    then Moment(parses[pptq.fields["startDate"]])
    else InvalidDate
  }

  /** The columns of `src` other than the start date, each unchanged. */
  function CopiedColumns(src: map<string, string>): map<string, string> {
    map key | key in src && key in ColumnKeys && key != "startDate" :: src[key]
  }
}
