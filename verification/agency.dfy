/** Travel agencies (app/model/agency.py): the line parser, the list-to-dict converter and the repository. */
module AgencyModel {
  import opened Wrappers
  import opened Seqs
  import opened Text
  import opened Dicts

  /** An agency: its id, its name and its location. Agencies compare by value. */
  datatype Agency = Agency(id: int, name: string, localization: string)

  /** The class `[A-Za-z ]` of agency names. */
  predicate IsNameChar(c: char) {
    'A' <= c <= 'Z' || 'a' <= c <= 'z' || c == ' '
  }

  /**
   * The class `[A-Za-ęóąśłżźćń ]` of locations. The range `a-ę` runs from U+0061 to U+0119, so it
   * already holds ó, ą and ć (and every other character in between); ś, ł, ż, ź and ń lie above it.
   */
  predicate IsLocalizationChar(c: char) {
    || 'A' <= c <= 'Z'
    || 'a' <= c <= '\U{0119}'
    || c == '\U{015B}' || c == '\U{0142}' || c == '\U{017C}' || c == '\U{017A}' || c == '\U{0144}'
    || c == ' '
  }

  /** `\d+`. */
  predicate IsNumber(s: string) {
    |s| > 0 && AllDigits(s)
  }

  /** `[A-Za-z ]+`. */
  predicate IsName(s: string) {
    |s| > 0 && forall i :: 0 <= i < |s| ==> IsNameChar(s[i])
  }

  /** `[A-Za-ęóąśłżźćń ]+`. */
  predicate IsLocalization(s: string) {
    |s| > 0 && forall i :: 0 <= i < |s| ==> IsLocalizationChar(s[i])
  }

  /** The lines `^\d+,[A-Za-z ]+,[A-Za-ęóąśłżźćń ]+$` matches: a number, a comma, a name, a comma, a location. */
  ghost predicate InAgencyPattern(line: string) {
    exists i, j ::
      && 0 <= i < j < |line|
      && line[i] == ',' && line[j] == ','
      && IsNumber(line[..i]) && IsName(line[i + 1..j]) && IsLocalization(line[j + 1..])
  }

  /** The pattern test as a computation on the pieces between commas. */
  predicate MatchesAgencyPattern(line: string) {
    var parts := Split(line, ',');
    |parts| == 3 && IsNumber(parts[0]) && IsName(parts[1]) && IsLocalization(parts[2])
  }

  lemma Join3(a: string, b: string, c: string, sep: string)
    ensures Join([a, b, c], sep) == a + sep + b + sep + c
  {
    assert [a, b, c][..2] == [a, b];
    assert [a, b][..1] == [a];
    assert Join([a], sep) == a;
    assert Join([a, b], sep) == a + sep + b;
    assert Join([a, b, c], sep) == Join([a, b], sep) + sep + c;
  }

  /** Splitting three comma-free pieces joined by commas gives the pieces back. */
  lemma SplitThree(a: string, b: string, c: string)
    requires ',' !in a && ',' !in b && ',' !in c
    ensures Split(a + "," + b + "," + c, ',') == [a, b, c]
  {
    Join3(a, b, c, ",");
    SplitJoin([a, b, c], ',');
  }

  /** None of the three classes holds a comma. */
  lemma NoCommaInFields(s: string)
    ensures IsNumber(s) || IsName(s) || IsLocalization(s) ==> ',' !in s
  {
    if ',' in s {
      var k :| 0 <= k < |s| && s[k] == ',';
      assert !IsDigit(s[k]) && !IsNameChar(s[k]) && !IsLocalizationChar(s[k]);
    }
  }

  /** The computed test accepts exactly the lines in the pattern's language. */
  lemma MatchesAgencyPatternIff(line: string)
    ensures MatchesAgencyPattern(line) <==> InAgencyPattern(line)
  {
    if MatchesAgencyPattern(line) {
      MatchedLineInPattern(line);
    }
    if InAgencyPattern(line) {
      var i, j :| 0 <= i < j < |line| && line[i] == ',' && line[j] == ','
        && IsNumber(line[..i]) && IsName(line[i + 1..j]) && IsLocalization(line[j + 1..]);
      PatternLineMatches(line, i, j);
    }
  }

  lemma MatchedLineInPattern(line: string)
    requires MatchesAgencyPattern(line)
    ensures InAgencyPattern(line)
  {
    var parts := Split(line, ',');
    var a, b, c := parts[0], parts[1], parts[2];
    Join3(a, b, c, ",");
    assert parts == [a, b, c];
    assert line == a + "," + b + "," + c;
    var i, j := |a|, |a| + 1 + |b|;
    assert line[..i] == a && line[i + 1..j] == b && line[j + 1..] == c;
    assert line[i] == ',' && line[j] == ',';
  }

  lemma PatternLineMatches(line: string, i: int, j: int)
    requires 0 <= i < j < |line| && line[i] == ',' && line[j] == ','
    requires IsNumber(line[..i]) && IsName(line[i + 1..j]) && IsLocalization(line[j + 1..])
    ensures MatchesAgencyPattern(line)
  {
    var a, b, c := line[..i], line[i + 1..j], line[j + 1..];
    NoCommaInFields(a);
    NoCommaInFields(b);
    NoCommaInFields(c);
    assert line == a + "," + b + "," + c;
    SplitThree(a, b, c);
  }

  /** An agency whose fields the pattern admits. */
  predicate IsWellFormed(a: Agency) {
    a.id >= 0 && IsName(a.name) && IsLocalization(a.localization)
  }

  /** The message `from_text` raises with. */
  function InvalidData(line: string): Error {
    AttributeError("Invalid data: " + line)
  }

  /**
   * `Agency.from_text`: a line in the pattern's language becomes the agency of its three pieces,
   * the first read as a number; any other line raises.
   */
  function FromText(line: string): (r: Result<Agency>)
    ensures r.Failure? ==> r.error == InvalidData(line)
    ensures r.Success? ==> IsWellFormed(r.value)
  {
    if !MatchesAgencyPattern(line) then Failure(InvalidData(line))
    else
      var parts := Split(line, ',');
      Join3(parts[0], parts[1], parts[2], ",");
      assert parts == [parts[0], parts[1], parts[2]];
      Success(Agency(ParseNat(parts[0]), parts[1], parts[2]))
  }

  /** `from_text` accepts exactly the lines in the pattern's language. */
  lemma FromTextAccepts(line: string)
    ensures FromText(line).Success? <==> InAgencyPattern(line)
  {
    MatchesAgencyPatternIff(line);
  }

  /** A parsed line is the agency's number, name and location separated by commas. */
  lemma FromTextPieces(line: string)
    requires FromText(line).Success?
    ensures
      var a := FromText(line).value;
      exists digits :: IsNumber(digits) && ParseNat(digits) == a.id && line == digits + "," + a.name + "," + a.localization
  {
    var parts := Split(line, ',');
    MatchesAgencyPatternIff(line);
    Join3(parts[0], parts[1], parts[2], ",");
    assert parts == [parts[0], parts[1], parts[2]];
  }

  /** The line `id,name,localization` for an agency. */
  function Format(a: Agency): string
    requires a.id >= 0
  {
    NatToString(a.id) + "," + a.name + "," + a.localization
  }

  /** Writing an agency as a line and parsing the line gives the agency back. */
  lemma FromTextFormat(a: Agency)
    requires IsWellFormed(a)
    ensures FromText(Format(a)) == Success(a)
  {
    var digits := NatToString(a.id);
    NoCommaInFields(digits);
    NoCommaInFields(a.name);
    NoCommaInFields(a.localization);
    SplitThree(digits, a.name, a.localization);
    ParseNatToString(a.id);
    MatchesAgencyPatternIff(Format(a));
  }

  /** The lines the tests reject: a line with no location, and the empty line. */
  lemma FromTextRejects()
    ensures FromText("1,Travel Agency").Failure?
    ensures FromText("").Failure?
  {
    var line := "1,Travel Agency";
    assert ',' !in "Travel Agency";
    assert line == "1" + [','] + "Travel Agency";
    SplitNoSeparator("Travel Agency", ',');
    SplitNoSeparator("1", ',');
    SplitAfterSeparator("1", ',', "Travel Agency");
    MatchesAgencyPatternIff(line);
    MatchesAgencyPatternIff("");
  }

  /** Every line parses. */
  predicate AllParse(data: seq<string>) {
    forall i :: 0 <= i < |data| ==> FromText(data[i]).Success?
  }

  /** Line `i` is the first line that does not parse. */
  predicate IsFirstInvalid(data: seq<string>, i: int) {
    0 <= i < |data| && FromText(data[i]).Failure? && forall j :: 0 <= j < i ==> FromText(data[j]).Success?
  }

  /** The agencies of lines that all parse, in line order. */
  function Parsed(data: seq<string>): (agencies: seq<Agency>)
    requires AllParse(data)
    ensures |agencies| == |data|
  {
    seq(|data|, i requires 0 <= i < |data| => FromText(data[i]).value)
  }

  /** Each agency keyed by its id. */
  function ById(agencies: seq<Agency>): (kvs: seq<(int, Agency)>)
    ensures |kvs| == |agencies|
    ensures forall i :: 0 <= i < |agencies| ==> kvs[i] == (agencies[i].id, agencies[i])
  {
    seq(|agencies|, i requires 0 <= i < |agencies| => (agencies[i].id, agencies[i]))
  }

  /**
   * `AgencyConverter.to_agencies`: parses the lines in order, storing each agency under its id so
   * that a later agency with the same id replaces the earlier one; the first line that does not
   * parse aborts the conversion with its error.
   */
  method ToAgencies(data: seq<string>) returns (r: Result<Dict<int, Agency>>)
    ensures r.Success? <==> AllParse(data)
    ensures r.Failure? ==> exists i :: IsFirstInvalid(data, i) && r.error == FromText(data[i]).error
    ensures r.Success? ==> r.value == PutAll([], ById(Parsed(data)))
  {
    var agencies: Dict<int, Agency> := [];
    for i := 0 to |data|
      invariant AllParse(data[..i])
      invariant agencies == PutAll([], ById(Parsed(data[..i])))
    {
      var next := AddAgency(data, i, agencies);
      if next.Failure? {
        return Failure(next.error);
      }
      agencies := next.value;
    }
    assert data[..|data|] == data;
    r := Success(agencies);
  }

  /** One pass of the conversion loop: line `i` parsed and stored under its id after the lines before it. */
  method AddAgency(data: seq<string>, i: nat, agencies: Dict<int, Agency>) returns (r: Result<Dict<int, Agency>>)
    requires i < |data| && AllParse(data[..i]) && agencies == PutAll([], ById(Parsed(data[..i])))
    ensures r.Failure? ==> IsFirstInvalid(data, i) && r.error == FromText(data[i]).error
    ensures r.Success? ==> AllParse(data[..i + 1]) && r.value == PutAll([], ById(Parsed(data[..i + 1])))
  {
    var a := FromText(data[i]);
    if a.Failure? {
      ToAgenciesFails(data, i);
      return Failure(a.error);
    }
    ToAgenciesStep(data, i);
    r := Success(Put(agencies, a.value.id, a.value));
  }

  /** After the lines before it parsed, a line that does not parse is the first such line. */
  lemma ToAgenciesFails(data: seq<string>, i: nat)
    requires i < |data| && AllParse(data[..i]) && FromText(data[i]).Failure?
    ensures IsFirstInvalid(data, i)
  {
    assert forall j :: 0 <= j < i ==> data[..i][j] == data[j];
  }

  lemma ToAgenciesStep(data: seq<string>, i: nat)
    requires i < |data| && AllParse(data[..i]) && FromText(data[i]).Success?
    ensures AllParse(data[..i + 1])
    ensures
      var a := FromText(data[i]).value;
      PutAll([], ById(Parsed(data[..i + 1]))) == Put(PutAll([], ById(Parsed(data[..i]))), a.id, a)
  {
    assert forall j :: 0 <= j < i ==> data[..i + 1][j] == data[..i][j];
    var before, after := ById(Parsed(data[..i])), ById(Parsed(data[..i + 1]));
    assert after[..i] == before;
  }

  /** Lines whose ids are all different give a dict that lists the agencies in line order. */
  lemma ToAgenciesDistinct(data: seq<string>)
    requires AllParse(data)
    requires NoDuplicates(Keys(ById(Parsed(data))))
    ensures Values(PutAll([], ById(Parsed(data)))) == Parsed(data)
  {
    PutAllDistinct(ById(Parsed(data)));
  }

  /** The agencies read from a file, keyed by id. */
  datatype AgencyRepo = AgencyRepo(agencies: Dict<int, Agency>) {

    /** `get_agencies`: the stored agencies in insertion order. */
    function GetAgencies(): (r: seq<Agency>)
      ensures |r| == |agencies|
      ensures forall i :: 0 <= i < |agencies| ==> r[i] == agencies[i].1
    {
      Values(agencies)
    }

    /** `get_by_id`: the agency stored under the id, or `None` (also for a missing id). */
    function GetById(id: Option<int>): (r: Option<Agency>)
      ensures r.Some? <==> id.Some? && id.value in Keys(agencies)
      ensures r.Some? ==> (id.value, r.value) in agencies
      ensures Valid(agencies) && id.Some? ==> forall a :: (id.value, a) in agencies ==> r == Some(a)
    {
      if id.None? then None
      else
        var r := Get(agencies, id.value);
        assert forall a :: (id.value, a) in agencies ==> exists i :: 0 <= i < |agencies| && agencies[i] == (id.value, a);
        r
    }

    /**
     * `agency_name_for_id` as written: the default `'Unknown agency'` is a string, and asking
     * it for `.name` raises, so an unknown id fails instead of giving the default.
     */
    function AgencyNameForId(id: int): (r: Result<string>)
      ensures r.Success? <==> id in Keys(agencies)
      ensures r.Success? ==> exists a :: (id, a) in agencies && r.value == a.name
      ensures r.Failure? ==> r.error == AttributeError("'str' object has no attribute 'name'")
    {
      match GetById(Some(id))
      case Some(a) => Success(a.name)
      case None => Failure(AttributeError("'str' object has no attribute 'name'"))
    }

    /** `agency_name_for_id` as its documentation describes it: the name, or `'Unknown agency'`. */
    function AgencyNameOrUnknown(id: int): (r: string)
      ensures id !in Keys(agencies) ==> r == "Unknown agency"
      ensures id in Keys(agencies) ==> exists a :: (id, a) in agencies && r == a.name
    {
      match GetById(Some(id))
      case Some(a) => a.name
      case None => "Unknown agency"
    }
  }

  /**
   * The documented lookup agrees with the written one on every stored id and gives
   * `'Unknown agency'` exactly where the written one raises.
   */
  lemma AgencyNameOrUnknownAgrees(repo: AgencyRepo, id: int)
    ensures repo.AgencyNameForId(id).Success? ==> repo.AgencyNameOrUnknown(id) == repo.AgencyNameForId(id).value
    ensures repo.AgencyNameForId(id).Failure? <==> repo.AgencyNameOrUnknown(id) == "Unknown agency" && id !in Keys(repo.agencies)
  {
  }

  /** A repository filled by the converter finds each agency under its id unless a later line reuses the id. */
  lemma GetByIdAfterToAgencies(data: seq<string>, i: nat)
    requires AllParse(data) && i < |data|
    requires forall j :: i < j < |data| ==> Parsed(data)[j].id != Parsed(data)[i].id
    ensures AgencyRepo(PutAll([], ById(Parsed(data)))).GetById(Some(Parsed(data)[i].id)) == Some(Parsed(data)[i])
  {
    var kvs := ById(Parsed(data));
    var id := Parsed(data)[i].id;
    assert kvs[i] == (id, Parsed(data)[i]);
    assert Keys(kvs)[i] == id;
    var v := LastValue(kvs, id);
    var k :| 0 <= k < |kvs| && kvs[k] == (id, v.value) && forall j :: k < j < |kvs| ==> kvs[j].0 != id;
    assert k == i;
    assert Get(PutAll([], kvs), id) == v;
  }
}
