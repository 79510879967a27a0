/**
 * The place resolver (`country_to_code` and `get_coords`): a free-text place
 * label such as "Paris, France" becomes gazetteer coordinates, or nothing.
 * The country-name normaliser is an outside collaborator, passed in as
 * `lookup`: a country name or variant to its ISO 3166 alpha-2 code, if any.
 */
module Resolver {
  import opened Wrappers
  import opened Text
  import opened Gazetteer

  /** `country_to_code`: the code of the stripped country name, as the collaborator reports it. */
  function CountryToCode(name: string, lookup: string -> Option<string>): Option<string>
  {
    lookup(Strip(name))
  }

  /** Surrounding whitespace never changes the country code found. */
  lemma CountryToCodeIgnoresSpace(name: string, lookup: string -> Option<string>)
    ensures CountryToCode(Strip(name), lookup) == CountryToCode(name, lookup)
  {
    StripIdempotent(name);
  }

  /** Each comma-separated part of `place`, stripped. */
  function Parts(place: string): (parts: seq<string>)
    ensures |parts| == |Split(place, ',')|
    ensures forall k :: 0 <= k < |parts| ==> parts[k] == Strip(Split(place, ',')[k])
  {
    var raw := Split(place, ',');
    seq(|raw|, k requires 0 <= k < |raw| => Strip(raw[k]))
  }

  /**
   * `get_coords`: at least two comma-separated parts are needed; the first is
   * the city, the last names the country; a missing or empty country code, or
   * a key absent from the gazetteer, gives `None`.
   */
  function GetCoords(place: string, db: map<string, Coords>, lookup: string -> Option<string>): (r: Option<Coords>)
    ensures r.Some? ==> r.value in db.Values
  {
    var parts := Parts(place);
    if |parts| < 2 then None
    else
      var city := Lower(parts[0]);
      match CountryToCode(parts[|parts| - 1], lookup)
      case None => None
      case Some(code) =>
        if code == "" then None
        else Get(db, city + "," + Lower(code))
  }

  /**
   * Reference reading of a place from its raw first field `city` and raw last
   * field `country`: the gazetteer entry under the normalised city name and
   * the lower-cased country code, when the country is recognised.
   */
  function ResolveFields(city: string, country: string, db: map<string, Coords>, lookup: string -> Option<string>): Option<Coords>
  {
    match lookup(Strip(country))
    case None => None
    case Some(code) =>
      var key := Lower(Strip(city)) + "," + Lower(code);
      if code != "" && key in db then Some(db[key]) else None
  }

  /** A place without a comma has fewer than two parts and never resolves. */
  lemma GetCoordsNeedsComma(place: string, db: map<string, Coords>, lookup: string -> Option<string>)
    requires ',' !in place
    ensures GetCoords(place, db, lookup) == None
  {
    SplitParts(place, ',');
  }

  /**
   * For a place made of two or more comma-free fields, the result depends only
   * on the first and last fields: the middle ones are ignored.
   */
  lemma GetCoordsFirstAndLast(fields: seq<string>, db: map<string, Coords>, lookup: string -> Option<string>)
    requires |fields| >= 2
    requires forall k :: 0 <= k < |fields| ==> ',' !in fields[k]
    ensures GetCoords(Join(fields, ','), db, lookup) == ResolveFields(fields[0], fields[|fields| - 1], db, lookup)
  {
    var place := Join(fields, ',');
    SplitJoin(fields, ',');
    var parts := Parts(place);
    var last := fields[|fields| - 1];
    assert parts[0] == Strip(fields[0]);
    assert parts[|parts| - 1] == Strip(last);
    StripIdempotent(last);
    var city := Lower(parts[0]);
    if lookup(Strip(last)).Some? {
      var code := lookup(Strip(last)).value;
      assert GetCoords(place, db, lookup) == if code == "" then None else Get(db, city + "," + Lower(code));
    }
  }

  /** Every place with a comma is the join of at least two comma-free fields, so the lemma above covers it. */
  lemma PlaceFields(place: string) returns (fields: seq<string>)
    requires ',' in place
    ensures |fields| >= 2 && Join(fields, ',') == place
    ensures forall k :: 0 <= k < |fields| ==> ',' !in fields[k]
  {
    fields := Split(place, ',');
    SplitParts(place, ',');
    JoinSplit(place, ',');
  }

  /** The normalised fields of the example labels below. */
  lemma ExampleFields()
    ensures Strip(" France") == "France" && Strip(" Atlantis") == "Atlantis"
    ensures Lower(Strip("Paris")) + "," + Lower("FR") == "paris,fr"
  {
    assert StripLeft(" France") == "France";
    assert StripLeft(" Atlantis") == "Atlantis";
    assert Strip("Paris") == "Paris";
    assert Lower("Paris") == "paris";
    assert Lower("FR") == "fr";
  }

  /** A city in a recognised country resolves to the gazetteer entry under "city,cc". */
  lemma ResolvesParis(db: map<string, Coords>, lookup: string -> Option<string>)
    requires lookup("France") == Some("FR")
    requires "paris,fr" in db
    ensures GetCoords("Paris, France", db, lookup) == Some(db["paris,fr"])
  {
    assert "Paris, France" == Join(["Paris", " France"], ',');
    GetCoordsFirstAndLast(["Paris", " France"], db, lookup);
    ExampleFields();
  }

  /** A country the normaliser does not know makes the place unresolvable. */
  lemma UnknownCountryFails(db: map<string, Coords>, lookup: string -> Option<string>)
    requires lookup("Atlantis") == None
    ensures GetCoords("City, Atlantis", db, lookup) == None
  {
    assert "City, Atlantis" == Join(["City", " Atlantis"], ',');
    GetCoordsFirstAndLast(["City", " Atlantis"], db, lookup);
    ExampleFields();
  }

  /** A place with no comma, such as "Nowhereville", never resolves. */
  lemma SinglePartFails(db: map<string, Coords>, lookup: string -> Option<string>)
    ensures GetCoords("Nowhereville", db, lookup) == None
  {
    GetCoordsNeedsComma("Nowhereville", db, lookup);
  }
}
