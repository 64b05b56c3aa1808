# Travel agency reporting, modelled in Dafny

This project models the core of a small travel-agency reporting application.

- **The trip record.** A trip has an id, a destination, a price per person, a party size and an agency id. Its income is the price times the VAT rate times the agency margin.
- **Agencies and countries.** They are read from text lines. Each line is checked against a fixed pattern and converted. The results are stored in dicts and looked up by id or by name.
- **The trip data-access object.** Its row-acceptance rule keeps only sane trips. It also writes the text of the INSERT and UPDATE statements it sends.
- **The connection-pool configuration builder.** It holds default settings merged with overrides and has fluent setters.
- **The reporting service.** It groups the valid trips by agency into an "offer". It then answers these queries:
  - agencies tied for the most trips and for the most income;
  - destinations tied for the most trips;
  - the mean price per agency, with the trip closest to it;
  - the top agencies of each destination;
  - trips restricted to a set of countries;
  - trips grouped by party size;
  - the most expensive trips of each party size, ranked by price per person.

Python dicts keep insertion order, and most results depend on it. So a dict is modelled as a sequence of (key, value) entries in which no key repeats (`Dicts.Dict`, `Dicts.Valid`):

- `d[k] = v` keeps an existing key's position and appends a new key (`Dicts.Put`).
- Repeated assignment and `d | other` are `Dicts.PutAll`.
- The `defaultdict(list)` append loops are `Dicts.GroupAll`.

Decimal values are exact `real`s. A Python exception is the `Failure` side of a `Result`. It carries the exception class and the message the code raises with.

The module `Wrappers` holds `Option`, `Result` and the errors. `Seqs`, `Dicts` and `Text` hold the sequence, dict and string operations. Each remaining module follows one source file:

| module | source file |
|---|---|
| `TripModel` | `app/persistence/model.py` |
| `AgencyModel` | `app/model/agency.py` |
| `CountryModel` | `app/model/countries.py` |
| `TripDao` | `app/persistence/dao.py` |
| `Connection` | `app/persistence/connection.py` |
| `Service` | `app/service/agency_service.py` |

Loops that change a dict or a list step by step are methods whose `ensures` ties the result to a specification function. Examples are `__post_init__`, `to_agencies`, `to_countries`, `find_all_valid` and the report loops. The specification function's meaning is then proved as lemmas. The configuration builder changes its dict in place and returns itself, so it is a class.

The database is not part of this model. Each query result the service would fetch is a parameter instead:

- the valid trips;
- all trips;
- the (destination, count) pairs;
- the (destination, agency id, count) rows.

Where a docstring and the code differ, the model follows the code. The two cases are listed under Findings, together with the corrected behaviour.

## Model

| member | source | states |
|---|---|---|
| TripModel.DefaultTrip | app/persistence/model.py:19-23 | `Trip()` has price 0 and every other field unset |
| TripModel.GetIncome | app/persistence/model.py:50-65 | fails with `TypeError("Price must be set to calculate income.")` exactly when the price is unset; otherwise the income is price × VAT rate × margin |
| TripModel.Income | app/persistence/model.py:50 | with the default rates 0.19 and 0.1 the income is 1.9 % of the price; it fails only for an unset price and is never negative for a non-negative price |
| AgencyModel.NoCommaInFields | app/model/agency.py:20 | none of the number, name and location classes admits a comma |
| AgencyModel.SplitThree | app/model/agency.py:51 | three comma-free pieces joined by commas split back into exactly those three pieces |
| AgencyModel.MatchesAgencyPatternIff | app/model/agency.py:20 | the split-based test accepts exactly the lines of the pattern's language: digits, comma, name, comma, location |
| AgencyModel.FromText | app/model/agency.py:37-52 | every failure is `AttributeError("Invalid data: " + line)`; every parsed agency has a non-negative id, a name of letters and spaces and a location from the location class |
| AgencyModel.FromTextAccepts | app/model/agency.py:49-50 | `from_text` succeeds exactly on the lines the pattern matches |
| AgencyModel.FromTextPieces | app/model/agency.py:51-52 | a parsed line is the id's digits, the name and the location, separated by commas |
| AgencyModel.FromTextFormat | app/model/agency.py:51-52 | writing a well-formed agency as `id,name,location` and parsing the line gives the same agency back |
| AgencyModel.FromTextRejects | tests/model/agency/test_agency.py:12-19 | the line `1,Travel Agency` and the empty line are rejected |
| AgencyModel.ToAgencies | app/model/agency.py:59-72 | succeeds exactly when every line parses; otherwise it fails with the error of the first line that does not; on success every agency is assigned under its id in line order, so a later duplicate id replaces the earlier agency |
| AgencyModel.AddAgency | app/model/agency.py:69-71 | one pass of the conversion loop: line `i` fails as the first bad line, or its agency is assigned after those of the lines before it |
| AgencyModel.ToAgenciesStep | app/model/agency.py:71 | assigning one more parsed agency extends the converted dict by that agency under its id |
| AgencyModel.ToAgenciesDistinct | app/model/agency.py:68-72 | when no two lines share an id, the dict lists the agencies in line order |
| AgencyModel.AgencyRepo.GetAgencies | app/model/agency.py:88-94 | the stored agencies in insertion order |
| AgencyModel.AgencyRepo.GetById | app/model/agency.py:96-105 | gives an agency exactly when the id is set and stored, and that agency is the one stored under it; `None` otherwise |
| AgencyModel.GetByIdAfterToAgencies | app/model/agency.py:96-105 | a repository filled by the converter finds each agency under its id, unless a later line reuses the id |
| AgencyModel.AgencyRepo.AgencyNameForId | app/model/agency.py:107-116 | as written: the name of the stored agency; for an unknown id it fails with `AttributeError("'str' object has no attribute 'name'")` |
| AgencyModel.AgencyRepo.AgencyNameOrUnknown | app/model/agency.py:107-116 | as documented: the stored agency's name, or `'Unknown agency'` for an unknown id |
| AgencyModel.AgencyNameOrUnknownAgrees | app/model/agency.py:107-116 | the documented lookup agrees with the written one on every stored id; it gives `'Unknown agency'` exactly where the written one raises |
| CountryModel.FromText | app/model/countries.py:34-50 | succeeds exactly on a non-empty text of letters and spaces, and the name is the text unchanged; otherwise it fails with `AttributeError("Data is not correct: " + data)` |
| CountryModel.FromTextRejects | tests/model/country/test_country.py:12-19 | the empty text and `1,COUNTRY,47364` are rejected |
| CountryModel.ToCountries | app/model/countries.py:62-78 | succeeds exactly when every line is a country name, and then gives key `i` to the country of line `i` for every line, so the result has one entry per line; otherwise it fails with the error of the first bad line |
| CountryModel.Numbered | app/model/countries.py:72-77 | the numbered dict has one entry per line, entry `i` being `(i, Country(line i))` |
| CountryModel.NumberedValid | app/model/countries.py:73-77 | the counter never repeats a key |
| CountryModel.NumberedStep | app/model/countries.py:74-77 | the next name goes last under the next number |
| CountryModel.ToCountriesFails | app/model/countries.py:75 | a line that is not a name, after lines that all were, is the first bad line |
| CountryModel.CountryRepo.GetCountries | app/model/countries.py:105-112 | a name is in the set exactly when some stored country has it; repeated names count once |
| CountryModel.GetCountriesOfConverted | app/model/countries.py:112 | a repository filled by the converter offers exactly the names of its lines |
| TripDao.IsValidTrip | app/persistence/dao.py:223-227 | a trip the acceptance rule keeps has a price, so its income can be computed and is not negative |
| TripDao.FindAllValid | app/persistence/dao.py:219-232 | keeps exactly the rows that pass the acceptance rule (destination of letters and whitespace, price at least 0, party size at least 0), with every copy, in fetch order; a rejected row never aborts the batch |
| TripDao.ValidTripsHaveIncome | app/persistence/dao.py:224 | every accepted trip has a computable, non-negative income |
| TripDao.ToStr | app/persistence/dao.py:175-178 | text with no quote and no backslash reads back as the one literal it is; a non-negative integer reads back as its value |
| TripDao.ToStrReadsBack | app/persistence/dao.py:175-178 | quoted text with no quote and no backslash in it is read back by MySQL (default SQL mode, backslash escapes on) as one literal holding exactly the text, and what follows is left as it was |
| TripDao.ToStrQuoteEndsLiteral | app/persistence/dao.py:178 | quotes are not escaped: the literal for `O'Hara` ends after `O`, and the rest is read as SQL |
| TripDao.ToStrTrailingBackslashUnclosed | app/persistence/dao.py:178 | backslashes are not escaped: the literal for `a\` has its closing quote escaped, so it is unclosed |
| TripDao.ColumnNamesForInsert | app/persistence/dao.py:170-173 | the column name of every attribute but `_id`, leading underscores stripped, in declaration order, separated by `, ` |
| TripDao.InsertColumnsOfNames | app/persistence/dao.py:172 | the column list is the column names of the attribute names other than `_id`, in order |
| TripDao.ColumnValuesForInsert | app/persistence/dao.py:180-187 | the rendered value of every field but `_id`, in declaration order, separated by `, ` |
| TripDao.InsertSql | app/persistence/dao.py:43-44 | for an item of the entity's type, the column list and the value list come from the same non-`_id` fields, in the same order |
| TripDao.InsertColumnsMatchValues | app/persistence/dao.py:170-187 | the INSERT's column names and values correspond one to one: both cover the fields other than `_id` in declaration order, as column names without leading underscores and as rendered values |
| TripDao.InsertColumnsOfKept | app/persistence/dao.py:170-173 | the INSERT columns are the names of the non-`_id` fields, leading underscores stripped, in order |
| TripDao.InsertValuesOfKept | app/persistence/dao.py:180-187 | the INSERT values are the rendered values of the non-`_id` fields, in order |
| TripDao.ValueGroups | app/persistence/dao.py:61 | one group per item, in item order, holding that item's INSERT values between parentheses |
| TripDao.InsertManyValuesAppend | app/persistence/dao.py:61 | each further item adds its parenthesised group at the end, after `", "` |
| TripDao.InsertManySql | app/persistence/dao.py:61-63 | for one item it is the statement `insert` sends for it; for no items its VALUES list is empty |
| TripDao.ColumnNamesAndValuesForUpdate | app/persistence/dao.py:189-196 | as written: `column=value` for every set field whose name is not `id` in any letter case, in order; an entity whose first attribute `_id` is set has a SET list starting with `id=...` |
| TripDao.UpdateAssignmentsOfKept | app/persistence/dao.py:189-196 | the UPDATE assigns, in declaration order, exactly the fields whose name is not `id` (in any case) and whose value is set |
| TripDao.UpdateAssignsId | app/persistence/dao.py:195 | as written, an entity whose `_id` attribute is set gets `id=...` as its first assignment |
| TripDao.TripUpdateAssignsId | app/persistence/dao.py:190-196 | for a trip whose id is set, the UPDATE as written assigns the `id` column first |
| TripDao.UpdateSkippingIdSetsInsertColumns | app/persistence/dao.py:191 | the corrected UPDATE assigns exactly the INSERT columns whose value is set, in order |
| TripDao.ColumnNamesAndValuesForUpdateSkippingId | app/persistence/dao.py:191 | corrected: `column=value` for exactly the set fields among the INSERT's fields, in order |
| TripDao.UpdateSkippingIdNeverSetsId | app/persistence/dao.py:191 | the corrected UPDATE never assigns the id attribute, nor an unset value |
| Connection.Defaults | app/persistence/connection.py:46-54 | the defaults form a dict of the seven keys pool_name, pool_size, host, database, user, password, port, in that order |
| Connection.DefaultValues | app/persistence/connection.py:46-54 | the default values: `my_pool`, 5, `localhost`, `db_1`, `user`, `user1234`, 3307 |
| Connection.MergeOverrides | app/persistence/connection.py:54 | after the merge every supplied key has its supplied value and every other key keeps its default |
| Connection.MergeKeyOrder | app/persistence/connection.py:54 | the merge keeps the seven default keys first, in order, and adds exactly the new supplied keys |
| Connection.ConnectionPoolBuilder.constructor | app/persistence/connection.py:28-54 | the configuration is the defaults merged with the given parameters; no parameters leave the defaults |
| Connection.ConnectionPoolBuilder.Builder | app/persistence/connection.py:130-138 | a fresh builder holding exactly the defaults |
| Connection.ConnectionPoolBuilder.PoolSize | app/persistence/connection.py:56-67 | assigns `pool_size` in the builder's own dict and returns the same builder |
| Connection.ConnectionPoolBuilder.User | app/persistence/connection.py:69-80 | assigns `user` in the builder's own dict and returns the same builder |
| Connection.ConnectionPoolBuilder.Password | app/persistence/connection.py:82-93 | assigns `password` in the builder's own dict and returns the same builder |
| Connection.ConnectionPoolBuilder.Database | app/persistence/connection.py:95-106 | assigns `database` in the builder's own dict and returns the same builder |
| Connection.ConnectionPoolBuilder.Port | app/persistence/connection.py:108-119 | assigns `port` in the builder's own dict and returns the same builder |
| Connection.SetterUpdatesOneKey | app/persistence/connection.py:66 | a setter changes only its own key's value, keeps the key order and size, and a later set of the same key wins |
| Connection.ChainedConfig | tests/persistence/connenction/test_connection.py:7-16 | a chain of setters accumulates: port 3308, user admin, password pass, database db, pool size 10, and the other defaults kept |
| Dicts.Put | app/model/agency.py:71 | an assigned key takes the new value and keeps its position, or goes last when new; every other key keeps its value |
| Dicts.PutAll | app/persistence/connection.py:54 | assigning pairs in order leaves each key with the value of its last pair; keys keep their first position |
| Dicts.PutAllEmpty | app/service/agency_service.py:105 | assigning pairs to an empty dict gives each key once, in order of first appearance, with its last value |
| Dicts.GroupAll | app/service/agency_service.py:29-31 | appending pairs to a `defaultdict(list)` lists each key once, in order of first appearance, with all its values in order; the lists together hold every pair |
| Seqs.TiedForMax | app/service/agency_service.py:43-44 | the elements whose score equals the maximum, every copy, in input order; `[]` exactly for an empty input |
| Seqs.FilterMembers | app/service/agency_service.py:131 | a comprehension keeps exactly the elements that satisfy its test |
| Seqs.FilterIsSubsequence | app/service/agency_service.py:131 | a comprehension keeps the input order |
| Seqs.SortDesc | app/service/agency_service.py:160-164 | `sorted(..., reverse=True)` gives a rearrangement of its input, largest key first |
| Seqs.SortDescStable | app/service/agency_service.py:160-164 | the sort is stable: entries sharing a key come out in their input order |
| Text.Split | app/model/agency.py:51 | the pieces of `split` contain no separator and join back into the text |
| Text.SplitJoin | app/model/agency.py:51 | `split` undoes `join` when no piece holds the separator |
| Text.ParseNatToString | app/model/agency.py:52 | `int` reads back the digits `str` writes |
| Text.LStripRemovesLeadingRun | app/persistence/dao.py:172 | `lstrip('_')` removes exactly the leading run of underscores |
| Service.OfferEntries | app/service/agency_service.py:30-31 | each trip is paired with `get_by_id(trip.agency_id)`, in input order |
| Service.ValuesOfOfferEntries | app/service/agency_service.py:30-31 | the trips grouped under a key are exactly that key's trips, in input order |
| Service.OfferStep | app/service/agency_service.py:30-31 | the next trip is appended to the list of its agency |
| Service.PostInit | app/service/agency_service.py:25-32 | the offer is a dict whose groups come in order of first appearance; no group is empty; each holds exactly its agency's trips (`None` for an unknown id) in input order; together they hold every trip once |
| Service.OfferGroupsAreTrips | app/service/agency_service.py:28-32 | every group of the offer is the non-empty list of its agency's trips, in input order |
| Service.GroupIsOrderedPart | app/service/agency_service.py:30-31 | a group holds a trip exactly when the trip's agency is the group's, with every copy, in input order |
| Service.TripCounts | app/service/agency_service.py:44 | each agency of the offer with its number of trips, in offer order |
| Service.AgencyService.FindAgencyWithMaxTrips | app/service/agency_service.py:34-44 | `[]` exactly for an empty offer; otherwise exactly the (agency, count) pairs whose count is the largest, in offer order |
| Service.CountIncomeForTrips | app/service/agency_service.py:47-56 | succeeds exactly when every trip has a price, and is then 1.9 % of the sum of the prices; otherwise it fails with the income error |
| Service.IncomeNonNegative | app/service/agency_service.py:56 | trips with non-negative prices have a non-negative income |
| Service.IncomeAppend | app/service/agency_service.py:56 | the income of two lists of trips together is the sum of their incomes |
| Service.Incomes | app/service/agency_service.py:64-66 | each agency of the offer with its income, in offer order |
| Service.AddIncome | app/service/agency_service.py:65-66 | one pass of the income loop: agency `i` fails with the income error when one of its trips has no price, or its income is assigned after those before it |
| Service.IncomesStep | app/service/agency_service.py:65-66 | one more agency's income is assigned and, its key being new, goes last |
| Service.AgencyService.FindAgencyWithMaxIncome | app/service/agency_service.py:58-68 | succeeds exactly when every trip has a price; then `[]` exactly for an empty offer, otherwise exactly the agencies whose income is the largest, in offer order |
| Service.AgencyService.FindCountryWithMaxTrips | app/service/agency_service.py:70-78 | an empty input raises `ValueError`, since `max` has no default; otherwise exactly the pairs whose count is the largest, in input order, at least one |
| Service.PriceSum | app/service/agency_service.py:92 | succeeds exactly when every trip has a price; the first unset price raises `TypeError` with the message Python gives |
| Service.PriceSumAppend | app/service/agency_service.py:92 | the sum over two lists is the sum of their sums |
| Service.PriceSumBounds | app/service/agency_service.py:92 | `n` prices within `[lo, hi]` sum to within `[n·lo, n·hi]` |
| Service.MeanPriceForTrips | app/service/agency_service.py:81-93 | 0 for no trips; otherwise it succeeds exactly when every trip has a price, and the mean times the number of trips is the sum of the prices |
| Service.MeanBetweenPrices | app/service/agency_service.py:92-93 | the mean lies between the smallest and the largest price |
| Service.MeanOfTwo | tests/service/test_service.py:73-78 | prices 100 and 200 have mean 150, and the first trip is the closest to it |
| Service.ClosestIndex | app/service/agency_service.py:104 | the position of the first trip whose price is nearest to the mean |
| Service.ClosestSnoc | app/service/agency_service.py:104 | `min` replaces its best only with a strictly nearer trip |
| Service.ClosestToMean | app/service/agency_service.py:104 | no trips raise `ValueError`; an unset price raises `TypeError`; otherwise the trip found is one of the trips |
| Service.ClosestToMeanIsFirstClosest | app/service/agency_service.py:104 | the trip found is the first of those nearest to the mean |
| Service.MeanEntry | app/service/agency_service.py:103-105 | a line exists exactly for a known agency with priced trips; it holds the agency's name, the mean price and the trip closest to the mean; the `None` agency raises `AttributeError` at `.name` |
| Service.ReportLine | app/service/agency_service.py:103-105 | computing the mean, then the closest trip, then the name gives the agency's report line or its first error |
| Service.AgencyService.MeanReportForAgencies | app/service/agency_service.py:95-106 | succeeds exactly when every agency's line can be made, otherwise fails with the error of the first that cannot; on success the report assigns each line under its agency's name in offer order |
| Service.AddReportLine | app/service/agency_service.py:102-105 | one pass of the report loop: agency `i` fails as the first bad one, or its line is assigned after those before it |
| Service.MeanReportStep | app/service/agency_service.py:105 | one more agency's line is assigned into the report under its name |
| Service.MeanReportLastWins | app/service/agency_service.py:105 | the report lists each name once, with the line of the last agency of that name |
| Service.AllEntriesOkNamed | app/service/agency_service.py:105 | the report can be made only when no agency of the offer is `None` |
| Service.MeanReportFails | app/service/agency_service.py:102-105 | a failing line after lines that all succeed is the first failure |
| Service.RowName | app/service/agency_service.py:117 | `int()` of a NULL id raises its `TypeError`; an id not stored raises the `AttributeError` of `'Unknown agency'.name`; otherwise the lookup succeeds with the stored agency's name |
| Service.NameEntries | app/model/agency.py:114 | the documented report's entries: each row's destination with the documented lookup's name for its agency (`'Unknown agency'` for an id not stored), in row order |
| Service.AgencyService.ReportAgenciesWithMaxTripsForEachCountry | app/service/agency_service.py:108-118 | as written: succeeds exactly when every row's agency id is set and stored, and then equals the documented report; otherwise raises the error of the first row whose id is NULL or not stored |
| Service.AddRowName | app/service/agency_service.py:116-117 | one loop pass: raises as row i's lookup does, otherwise appends its agency's name under its destination |
| Service.ReportOrUnknown | app/model/agency.py:107-116 | the documented report: only a NULL id fails, with `int()`'s `TypeError`; otherwise one entry per destination, in order of first appearance, listing its rows' agency names in row order, an unknown id as `'Unknown agency'` |
| Service.NamesForDestination | app/service/agency_service.py:114-118 | in the documented report, the names under a destination are the names of its rows' agencies, in row order |
| Service.NamesStep | app/service/agency_service.py:116-117 | one more row with an id appends its agency's name under its destination |
| Service.IdsForAscending | app/persistence/dao.py:290 | rows ordered by agency id within a destination list that destination's agencies by ascending id |
| Service.KnownIdsNamed | app/service/agency_service.py:117 | where every id of the rows is set and stored, each row's name is the one the written lookup returns |
| Service.AgencyService.ReportOnlySelectedCountriesTrips | app/service/agency_service.py:120-131 | exactly the valid trips whose destination is one of the repository's countries, every copy, in input order |
| Service.PeopleCounts | app/service/agency_service.py:142 | the party size of each trip, in order |
| Service.PeopleGroups | app/service/agency_service.py:140-142 | a dict whose keys are the party sizes in order of first appearance |
| Service.PeopleGroupsGet | app/service/agency_service.py:141-142 | a party size that occurs maps to the set of exactly the trips for that many people; no other size is a key |
| Service.PeopleGroupsEntries | app/service/agency_service.py:141-142 | every group is the non-empty set of the trips for its party size |
| Service.AgencyService.ReportTripsForPeopleQuantity | app/service/agency_service.py:133-143 | each party size once, in order of first appearance, with the non-empty set of its trips; equal trips collapse |
| Service.PerPersonPrice | app/service/agency_service.py:162 | succeeds exactly when both operands are set and the party size is not 0, and the quotient times the size is the price; an unset operand raises `TypeError`; 0 people raise a division error, or `InvalidOperation` for a zero price |
| Service.TopPriced | app/service/agency_service.py:158 | the kept trips are a subset of the group |
| Service.MaxExists | app/service/agency_service.py:157 | a non-empty group whose prices `max` can compare has a largest price |
| Service.TopPricedShape | app/service/agency_service.py:158 | with a maximum price, the kept trips are exactly the trips at that price: a non-empty set sharing one price |
| Service.TopPricedOfHasMax | app/service/agency_service.py:157-158 | the kept trips of a comparable non-empty group are a non-empty set sharing one price |
| Service.MaxPrice | app/service/agency_service.py:157 | an empty group raises `ValueError`; an unset price among several trips raises `TypeError`; otherwise the result is a price some trip has and no trip is priced above it |
| Service.TopPricedGroup | app/service/agency_service.py:157-158 | for a group with a maximum, exactly the trips at the maximum price; the failures as for `max` |
| Service.MaxPriceGroups | app/service/agency_service.py:155-158 | succeeds exactly when every group has a maximum, otherwise fails at the first group without one; each party size keeps the trips of its group at the maximum price |
| Service.AddTopGroup | app/service/agency_service.py:156-158 | one pass of the first loop: group `i` fails as the first group without a maximum, or its top-priced trips are assigned after those before it |
| Service.TopGroupsShared | app/service/agency_service.py:158 | every kept group is non-empty and shares one price, as `item[1][0].price` assumes |
| Service.TopGroupsStep | app/service/agency_service.py:158 | one more group's trips are assigned and, its key being new, go last |
| Service.GroupKey | app/service/agency_service.py:162 | the sort key of a group is the price of any of its trips over the party size |
| Service.RankByPricePerPerson | app/service/agency_service.py:160-164 | succeeds exactly when every group's key can be computed, otherwise fails with the first bad key's error; on success the groups are stably sorted by price per person, largest first |
| Service.RankingIsStableSort | app/service/agency_service.py:160-164 | the ranking is a rearrangement of the groups; each ranked group carries its own price per person; keys descend; groups with equal keys keep their dict order |
| Service.RankingExample | app/service/agency_service.py:160-164 | one traveller at 1200 outranks four travellers at 900 (225 each) |
| Service.AgencyService.ReportMaxPriceForQuantityReport | app/service/agency_service.py:145-164 | succeeds exactly when every group has a maximum and every key can be computed; an empty group or an unset price among several fails at the first such group; a party size of `None` or 0 always fails; once every group has a maximum, a failure is the division error of the first group whose price per person cannot be computed (`TypeError` for an unset size, `ZeroDivisionError` or `InvalidOperation` for 0); on success each party size keeps its top-priced trips, ranked by price per person, largest first |

## Left out

- Database access (connections, cursors, commits, `lastrowid`, `find_all`, `find_by_id`, `delete*`, `find_by_agency_id`) and the two SQL aggregate queries run in a MySQL server. Their results are parameters of the service members.
- `build()` and the module-level connection pool create a library object and open a network connection.
- Reading the data files: the repositories' constructors, `FileManager` and the module-level repositories and DAO. A repository is modelled by the dict it holds.
- `app/persistence/create_db.py` and `main.py` are not part of this model. They are CSV reading, DDL and printing.
- Logging has no effect on any result and is left out.
- `_table_name` relies on `inflection.tableize`, so the table name is a parameter. The `__dict__` reflection is replaced by an explicit, ordered list of (attribute, value) fields.
- `str()` of a Decimal, date or datetime is carried as text inside the value, because Python's formatting of those types is not part of this model.
- Decimal arithmetic is exact: the 28-digit rounding of Python's default Decimal context in the mean and in the price per person is not modelled.
- The character classes are ASCII. Python's `\s` also accepts the ASCII separators `\x1c` to `\x1f`, which `TripDao.IsSpace` leaves out. Python's `\d` and `\s` also accept other Unicode digits and spaces. Python's `$` also matches just before a final newline, so a line that ends in one newline would also be accepted. None of these is modelled.
- The agency's `pattern` field is a class-level constant and is folded into the parser.
- Service.MaxPrice: a set has no fixed iteration order in Python, so `max` over a group with an unset price among several trips is specified only as raising some `TypeError`. Its message, which depends on that order, is not fixed.
- Service.TopPriced: the list of tied trips follows the set's iteration order, which Python leaves open, so each kept group is a set. The model does not fix the order of the list.
- Service.ClosestToMean: the text of the `ValueError` for an empty list differs between Python versions. The model fixes one text.
- Service.AgencyService.FindCountryWithMaxTrips: the text of the `ValueError` that `max` raises for an empty argument differs between Python versions. The model fixes one text, and `Service.MaxPrice` uses the same one.
- Service.RowName: the text of the `TypeError` that `int(None)` raises differs between Python versions. The model fixes the wording of Python 3.10 and later.
- TripDao.FindAllValid: prices and party sizes have one number type each, so the `isinstance(..., Decimal)` and `isinstance(..., int)` checks are not modelled. A trip built with the integer default price 0, or with a float price, is kept by the model but rejected by the source. Rows read from the DECIMAL and INTEGER columns always pass those checks. `TripDao.IsValidTrip` is the rule without them.
- TripDao.ReadQuoted follows MySQL's default SQL mode. The `NO_BACKSLASH_ESCAPES` and `ANSI_QUOTES` modes are not modelled.
- Configuration values are text or integers (`Connection.ConfigValue`), while the builder takes `dict[str, Any]`. Values of other types are not modelled; the merge does not depend on them.
- Service.PerPersonPrice: a zero party size under a non-zero price is specified only as a division error, without its message.

## Findings

| source | as written | input that shows it | evidently intended | confidence | as-written member | corrected member |
|---|---|---|---|---|---|---|
| app/model/agency.py:107-116 | the default `'Unknown agency'` is a string, and the code asks it for `.name` | any id not in the repository | return `'Unknown agency'`, as the docstring says | high, not executed | AgencyModel.AgencyRepo.AgencyNameForId | AgencyModel.AgencyRepo.AgencyNameOrUnknown |
| app/persistence/dao.py:189-196 | the UPDATE skips fields named `id`, but the trip's attribute is `_id`, so a set id is assigned too | a trip whose `_id` is 1: the SET list starts with `id=1` | skip the id attribute, as the docstring says and as the INSERT builders do | high, not executed | TripDao.ColumnNamesAndValuesForUpdate | TripDao.ColumnNamesAndValuesForUpdateSkippingId |

The per-destination report follows the code: `Service.AgencyService.ReportAgenciesWithMaxTripsForEachCountry` raises at the first row whose agency id is NULL or not stored. `Service.ReportOrUnknown` is the documented report, which lists an unknown id as `'Unknown agency'`. Wherever the written report succeeds, the two are equal. `AgencyModel.AgencyNameOrUnknownAgrees` and `Service.KnownIdsNamed` show that the two lookups agree wherever the written one does not raise.

The contract of `TripDao.ColumnNamesAndValuesForUpdate` shows the `id=...` assignment, and `TripDao.TripUpdateAssignsId` exhibits it for a trip. `TripDao.UpdateSkippingIdSetsInsertColumns` and `TripDao.UpdateSkippingIdNeverSetsId` state that the corrected UPDATE assigns the set INSERT columns and never the id.
