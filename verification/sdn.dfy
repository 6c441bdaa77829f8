/** The parsed SDN document as the screening code reads it, the names it derives
    from an entry, and `extract_addresses`. */
module Sdn {
  import opened Base
  import opened Text

  /** A repeated XML element decodes either as a single dictionary or as a list of
      them. Only the three places where the code normalises this keep the choice
      visible: the entry list, an entry's alias list and its address list. */
  datatype Shape<T> = One(item: T) | Many(items: seq<T>)

  /** `[x] if isinstance(x, dict) else x`; an absent element reads as the empty list. */
  function Items<T>(s: Shape<T>): seq<T> {
    match s
    case One(x) => [x]
    case Many(xs) => xs
  }

  /** An `<address>` element: its child elements by tag name. */
  type Address = map<string, string>

  /** The address components, in the order they are joined. */
  const AddressFields: seq<string> :=
    ["address1", "address2", "address3", "city", "stateOrProvince", "postalCode", "country"]

  /** `addr.get(field, '')`. */
  function Field(a: Address, f: string): string {
    if f in a then a[f] else ""
  }

  /** The non-empty values of `fields` in `a`, in the order of `fields`. */
  function PresentValues(a: Address, fields: seq<string>): (vs: seq<string>)
    ensures |vs| <= |fields|
    ensures forall k :: 0 <= k < |vs| ==> vs[k] != ""
  {
    if fields == [] then []
    else
      var v := Field(a, fields[0]);
      (if v != "" then [v] else []) + PresentValues(a, fields[1..])
  }

  /** Every rendered part is the value of one of the fields, and there are no
      parts exactly when every field is empty. */
  lemma {:induction false} PresentValuesComeFromFields(a: Address, fields: seq<string>)
    ensures forall v :: v in PresentValues(a, fields) ==> exists f :: f in fields && Field(a, f) == v
    ensures PresentValues(a, fields) == [] <==> forall f :: f in fields ==> Field(a, f) == ""
    decreases |fields|
  {
    if fields != [] {
      PresentValuesComeFromFields(a, fields[1..]);
      assert forall f :: f in fields ==> f == fields[0] || f in fields[1..];
    }
  }

  /** Every present component of an address appears among its rendered parts. */
  lemma {:induction false} PresentValuesKeepsEveryField(a: Address, fields: seq<string>)
    ensures forall f :: f in fields && Field(a, f) != "" ==> Field(a, f) in PresentValues(a, fields)
    decreases |fields|
  {
    if fields != [] {
      PresentValuesKeepsEveryField(a, fields[1..]);
      assert forall f :: f in fields ==> f == fields[0] || f in fields[1..];
    }
  }

  /** One address rendered as its present components joined by ", ", or nothing
      when it has no present component. */
  function FormatAddress(a: Address): Option<string> {
    var parts := PresentValues(a, AddressFields);
    if parts == [] then None else Some(Join(parts, ", "))
  }

  function FormatAll(addrs: seq<Address>): (r: seq<string>)
    ensures |r| <= |addrs|
    ensures forall s :: s in r <==> exists a :: a in addrs && FormatAddress(a) == Some(s)
  {
    if addrs == [] then []
    else
      var head := match FormatAddress(addrs[0]) case Some(s) => [s] case None => [];
      var rest := FormatAll(addrs[1..]);
      assert forall a :: a in addrs ==> a == addrs[0] || a in addrs[1..];
      head + rest
  }

  /** `extract_addresses`: the formatted addresses of an entry's address list, in
      order, leaving out addresses without any present component. */
  function ExtractAddresses(list: Shape<Address>): (r: seq<string>)
    ensures |r| <= |Items(list)|
    ensures forall s :: s in r <==> exists a :: a in Items(list) && FormatAddress(a) == Some(s)
  {
    FormatAll(Items(list))
  }

  /** A single address dictionary is read exactly as a one-element list, and that
      list yields the address's rendering or nothing. */
  lemma SingleAddressIsOneElementList(a: Address)
    ensures ExtractAddresses(One(a)) == ExtractAddresses(Many([a]))
    ensures ExtractAddresses(One(a)) ==
      (match FormatAddress(a) case Some(s) => [s] case None => [])
  {
  }

  /** The extracted addresses of two concatenated lists are those of each list, in order. */
  lemma {:induction false} FormatAllAppend(xs: seq<Address>, ys: seq<Address>)
    ensures FormatAll(xs + ys) == FormatAll(xs) + FormatAll(ys)
    decreases |xs|
  {
    if xs == [] {
      assert xs + ys == ys;
    } else {
      assert (xs + ys)[1..] == xs[1..] + ys;
      FormatAllAppend(xs[1..], ys);
    }
  }

  lemma PresentValuesStep(a: Address, f: string, rest: seq<string>)
    ensures PresentValues(a, [f] + rest) == (if Field(a, f) != "" then [Field(a, f)] else []) + PresentValues(a, rest)
  {
    assert ([f] + rest)[1..] == rest;
  }

  /** The components of an address holding only a city and a country. */
  lemma CityAndCountryFields(a: Address, city: string, country: string)
    requires a == map["city" := city, "country" := country]
    ensures Field(a, "address1") == "" && Field(a, "address2") == "" && Field(a, "address3") == ""
    ensures Field(a, "stateOrProvince") == "" && Field(a, "postalCode") == ""
    ensures Field(a, "city") == city && Field(a, "country") == country
  {
  }

  lemma CityAndCountryParts(a: Address, city: string, country: string)
    requires a == map["city" := city, "country" := country]
    requires city != "" && country != ""
    ensures PresentValues(a, AddressFields) == [city, country]
  {
    CityAndCountryFields(a, city, country);
    var f4 := ["stateOrProvince", "postalCode", "country"];
    PresentValuesStep(a, "country", []);
    assert PresentValues(a, ["country"]) == [country];
    PresentValuesStep(a, "postalCode", ["country"]);
    assert PresentValues(a, ["postalCode", "country"]) == [country];
    PresentValuesStep(a, "stateOrProvince", ["postalCode", "country"]);
    assert PresentValues(a, f4) == [country];
    PresentValuesStep(a, "city", f4);
    assert PresentValues(a, ["city"] + f4) == [city, country];
    var f2 := ["address3"] + (["city"] + f4);
    PresentValuesStep(a, "address3", ["city"] + f4);
    PresentValuesStep(a, "address2", f2);
    PresentValuesStep(a, "address1", ["address2"] + f2);
    assert AddressFields == ["address1"] + (["address2"] + f2);
  }

  /** A city and a country and nothing else render as "city, country", with no
      separator left behind for the missing components. */
  lemma CityAndCountryOnly(city: string, country: string)
    requires city != "" && country != ""
    ensures FormatAddress(map["city" := city, "country" := country]) == Some(city + ", " + country)
  {
    CityAndCountryParts(map["city" := city, "country" := country], city, country);
    assert Join([city, country], ", ") == city + ", " + country by {
      assert [city, country][1..] == [country];
    }
  }

  // ---------------------------------------------------------------- entries

  /** An `<aka>` element. */
  datatype Aka = Aka(firstName: Option<string>, lastName: Option<string>)

  /** The value of `<programList><program>`: one label, or a list of them when the
      element repeats. The code never turns a single label into a list. */
  datatype Program = Label(tag: string) | Labels(tags: seq<string>)

  /** `<programList>` decoded as a dictionary (whose `program` key may be missing),
      or as anything else (an empty element, a repeated element). */
  datatype ProgramList = Listing(program: Option<Program>) | OtherShape

  /** An `<sdnEntry>`. A missing `akaList` or `addressList` is `Many([])`, a missing
      `programList` is `Listing(None)`. */
  datatype Entry = Entry(
    uid: Option<string>,
    sdnType: Option<string>,
    firstName: Option<string>,
    lastName: Option<string>,
    akas: Shape<Aka>,
    programList: ProgramList,
    addresses: Shape<Address>,
    remarks: Option<string>)

  /** The parsed `<sdnList>`: its entries and `publshInformation/Publish_Date`. A
      document without `sdnList` has no entries and no date. */
  datatype Document = Document(entries: Shape<Entry>, publishDate: Option<string>)

  const Unknown := "Unknown"

  /** The publication date shown in reports. */
  function PublishDate(d: Document): string {
    d.publishDate.GetOr(Unknown)
  }

  /** `f"{first} {last}".strip()` with missing parts read as "". */
  function PersonName(first: Option<string>, last: Option<string>): string {
    Strip(first.GetOr("") + " " + last.GetOr(""))
  }

  /** Two parts without outer whitespace are joined by one space. */
  lemma PersonNameOfParts(first: string, last: string)
    requires first != [] && last != [] && !IsSpace(first[0]) && !IsSpace(last[|last| - 1])
    ensures PersonName(Some(first), Some(last)) == first + " " + last
  {
    var s := first + " " + last;
    assert s[0] == first[0] && s[|s| - 1] == last[|last| - 1];
    StripUnpadded(s);
  }

  function PrimaryName(e: Entry): string {
    PersonName(e.firstName, e.lastName)
  }

  /** `f"{aka.get('firstName', '')} {aka.get('lastName', '')}".strip()`. */
  function AkaName(a: Aka): string {
    PersonName(a.firstName, a.lastName)
  }

  /** The non-empty values of `name` over `xs`, in order. */
  function NonEmptyNames<T>(xs: seq<T>, name: T -> string): (r: seq<string>)
    ensures |r| <= |xs|
    ensures forall k :: 0 <= k < |r| ==> r[k] != ""
    ensures forall n :: n in r <==> n != "" && exists x :: x in xs && name(x) == n
  {
    if xs == [] then []
    else
      var rest := NonEmptyNames(xs[1..], name);
      assert forall x :: x in xs ==> x == xs[0] || x in xs[1..];
      (if name(xs[0]) != "" then [name(xs[0])] else []) + rest
  }

  lemma {:induction false} NonEmptyNamesAppend<T>(xs: seq<T>, ys: seq<T>, name: T -> string)
    ensures NonEmptyNames(xs + ys, name) == NonEmptyNames(xs, name) + NonEmptyNames(ys, name)
    decreases |xs|
  {
    if xs == [] {
      assert xs + ys == ys;
    } else {
      assert (xs + ys)[0] == xs[0];
      assert (xs + ys)[1..] == xs[1..] + ys;
      NonEmptyNamesAppend(xs[1..], ys, name);
    }
  }

  /** The non-empty alias names, in the order of the alias list: a name is listed
      exactly when it is non-empty and some aka spells it. */
  function AliasNames(akas: seq<Aka>): (r: seq<string>)
    ensures |r| <= |akas|
    ensures forall k :: 0 <= k < |r| ==> r[k] != ""
    ensures forall n :: n in r <==> n != "" && exists a :: a in akas && AkaName(a) == n
  {
    NonEmptyNames(akas, AkaName)
  }

  lemma AliasNamesSingle(a: Aka)
    ensures AliasNames([a]) == if AkaName(a) != "" then [AkaName(a)] else []
  {
    assert [a][1..] == [];
  }

  /** The aliases of two concatenated alias lists are those of each list, in order. */
  lemma AliasNamesAppend(xs: seq<Aka>, ys: seq<Aka>)
    ensures AliasNames(xs + ys) == AliasNames(xs) + AliasNames(ys)
  {
    NonEmptyNamesAppend(xs, ys, AkaName);
  }

  /** The names an entry is screened under: the primary name first, even when it is
      empty, then every non-empty alias name, one per aka that has one, in the order
      of the alias list. */
  function CandidateNames(e: Entry): (names: seq<string>)
    ensures |names| >= 1 && names[0] == PrimaryName(e)
    ensures |names| <= 1 + |Items(e.akas)|
    ensures forall k :: 1 <= k < |names| ==> names[k] != ""
    ensures forall n :: n in names[1..] <==> n != "" && exists a :: a in Items(e.akas) && AkaName(a) == n
    ensures names[1..] == AliasNames(Items(e.akas))
  {
    var aliases := AliasNames(Items(e.akas));
    assert ([PrimaryName(e)] + aliases)[1..] == aliases;
    [PrimaryName(e)] + aliases
  }

  /** `programList.program` when the list decoded as a dictionary holding it, and
      "Unknown" when that key is missing or the list decoded as anything else. */
  function ProgramOf(e: Entry): (p: Program)
    ensures e.programList.OtherShape? ==> p == Label(Unknown)
    ensures e.programList.Listing? && e.programList.program.Some? ==> p == e.programList.program.value
    ensures e.programList == Listing(None) ==> p == Label(Unknown)
  {
    match e.programList
    case Listing(Some(p)) => p
    case _ => Label(Unknown)
  }
}
