/** Countries (app/model/countries.py): the name check, the list-to-dict converter and the repository. */
module CountryModel {
  import opened Wrappers
  import opened Dicts

  /** A country, known by its name. */
  datatype Country = Country(name: string)

  /** The class `[A-Za-z ]`. */
  predicate IsCountryChar(c: char) {
    'A' <= c <= 'Z' || 'a' <= c <= 'z' || c == ' '
  }

  /** `^[A-Za-z ]+$`: one or more letters and spaces. */
  predicate IsCountryName(s: string) {
    |s| > 0 && forall i :: 0 <= i < |s| ==> IsCountryChar(s[i])
  }

  /** `Country.from_text`: the whole text becomes the name when the pattern admits it; otherwise it raises. */
  function FromText(data: string): (r: Result<Country>)
    ensures r.Success? <==> IsCountryName(data)
    ensures r.Success? ==> r.value.name == data
    ensures r.Failure? ==> r.error == AttributeError("Data is not correct: " + data)
  {
    if IsCountryName(data) then Success(Country(data))
    else Failure(AttributeError("Data is not correct: " + data))
  }

  /** The inputs the tests reject: the empty text, and a line with digits and commas. */
  lemma FromTextRejects()
    ensures FromText("").Failure?
    ensures FromText("1,COUNTRY,47364").Failure?
  {
    assert !IsCountryChar("1,COUNTRY,47364"[0]);
  }

  /** Every line is a country name. */
  predicate AllNames(data: seq<string>) {
    forall i :: 0 <= i < |data| ==> IsCountryName(data[i])
  }

  /** Line `i` is the first line that is not a country name. */
  predicate IsFirstInvalid(data: seq<string>, i: int) {
    0 <= i < |data| && !IsCountryName(data[i]) && forall j :: 0 <= j < i ==> IsCountryName(data[j])
  }

  /** The dict `{0: Country(data[0]), 1: Country(data[1]), ...}`. */
  function Numbered(data: seq<string>): (d: Dict<int, Country>)
    ensures |d| == |data|
    ensures forall i :: 0 <= i < |data| ==> d[i] == (i, Country(data[i]))
  {
    seq(|data|, i requires 0 <= i < |data| => (i, Country(data[i])))
  }

  /**
   * `CountryConverter.to_countries`: numbers the countries 0, 1, 2, ... in line order with a counter,
   * so no two lines share a key; the first line that is not a name aborts with its error.
   */
  method ToCountries(data: seq<string>) returns (r: Result<Dict<int, Country>>)
    ensures r.Success? <==> AllNames(data)
    ensures r.Failure? ==> exists i :: IsFirstInvalid(data, i) && r.error == FromText(data[i]).error
    ensures r.Success? ==> r.value == Numbered(data)
    ensures r.Success? ==> Valid(r.value) && |r.value| == |data|
  {
    var countries: Dict<int, Country> := [];
    var id := 0;
    for i := 0 to |data|
      invariant id == i
      invariant AllNames(data[..i])
      invariant countries == Numbered(data[..i])
    {
      var c := FromText(data[i]);
      if c.Failure? {
        ToCountriesFails(data, i);
        return Failure(c.error);
      }
      NumberedStep(data, i);
      countries := Put(countries, id, c.value);
      id := id + 1;
    }
    assert data[..|data|] == data;
    NumberedValid(data);
    r := Success(countries);
  }

  /** After the lines before it were names, a line that is not a name is the first such line. */
  lemma ToCountriesFails(data: seq<string>, i: nat)
    requires i < |data| && AllNames(data[..i]) && !IsCountryName(data[i])
    ensures IsFirstInvalid(data, i)
  {
    assert forall j :: 0 <= j < i ==> data[..i][j] == data[j];
  }

  /** The next line goes last under the next number. */
  lemma NumberedStep(data: seq<string>, i: nat)
    requires i < |data| && AllNames(data[..i]) && IsCountryName(data[i])
    ensures AllNames(data[..i + 1])
    ensures Put(Numbered(data[..i]), i, Country(data[i])) == Numbered(data[..i + 1])
  {
    var d := Numbered(data[..i]);
    assert forall j :: 0 <= j < i ==> data[..i + 1][j] == data[..i][j];
    assert i !in Keys(d) by {
      assert forall j :: 0 <= j < |d| ==> Keys(d)[j] == j;
    }
    assert d + [(i, Country(data[i]))] == Numbered(data[..i + 1]);
  }

  /** The numbered dict has no repeated key. */
  lemma NumberedValid(data: seq<string>)
    ensures Valid(Numbered(data))
  {
    var ks := Keys(Numbered(data));
    assert forall i :: 0 <= i < |ks| ==> ks[i] == i;
  }

  /** The countries read from a file, keyed by number. */
  datatype CountryRepo = CountryRepo(countries: Dict<int, Country>) {

    /** `get_countries`: the set of the stored names; repeated names count once. */
    function GetCountries(): (r: set<string>)
      ensures forall n :: n in r <==> exists i :: 0 <= i < |countries| && countries[i].1.name == n
      ensures |r| <= |countries|
    {
      NamesBound(countries);
      set i | 0 <= i < |countries| :: countries[i].1.name
    }
  }

  /** There are no more distinct names than entries. */
  lemma {:induction false} NamesBound(d: Dict<int, Country>)
    ensures |set i | 0 <= i < |d| :: d[i].1.name| <= |d|
  {
    if d != [] {
      var init := d[..|d| - 1];
      NamesBound(init);
      var names := set i | 0 <= i < |d| :: d[i].1.name;
      var names' := set i | 0 <= i < |init| :: init[i].1.name;
      assert names == names' + {d[|d| - 1].1.name} by {
        forall n | n in names ensures n in names' + {d[|d| - 1].1.name} {
          var i :| 0 <= i < |d| && d[i].1.name == n;
          if i < |d| - 1 {
            assert init[i] == d[i];
          }
        }
      }
    }
  }

  /** A repository filled by the converter offers exactly the names of its lines. */
  lemma GetCountriesOfConverted(data: seq<string>)
    ensures CountryRepo(Numbered(data)).GetCountries() == set n | n in data
  {
    var d := Numbered(data);
    forall n | n in data ensures n in CountryRepo(d).GetCountries() {
      var i :| 0 <= i < |data| && data[i] == n;
      assert d[i].1.name == n;
    }
  }
}
