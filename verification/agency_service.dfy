/**
 * The reporting service (app/service/agency_service.py): the offer built from the valid trips, and
 * the reports over it. What the data-access object would fetch (the valid trips, all trips, the
 * per-destination counts and the per-destination maxima) is passed in as parameters.
 */
module Service {
  import opened Wrappers
  import opened Seqs
  import opened Dicts
  import opened TripModel
  import opened AgencyModel
  import CountryModel

  const EmptyMaxMessage: string := "max() arg is an empty sequence"
  const EmptyMinMessage: string := "min() arg is an empty sequence"
  const SubtractNoneMessage: string := "unsupported operand type(s) for -: 'NoneType' and 'decimal.Decimal'"
  const NoneNameMessage: string := "'NoneType' object has no attribute 'name'"

  // ---------------------------------------------------------------------------------------------
  // The offer
  // ---------------------------------------------------------------------------------------------

  /** Each agency (or `None`, for an id the repository does not know) with its trips, in arrival order. */
  type Offer = Dict<Option<Agency>, seq<Trip>>

  /** The group a trip joins: `get_by_id(trip.agency_id)`. */
  function OfferKey(repo: AgencyRepo, t: Trip): Option<Agency> {
    repo.GetById(t.agencyId)
  }

  /** Each trip paired with the group it joins, in input order. */
  function OfferEntries(repo: AgencyRepo, trips: seq<Trip>): (kvs: seq<(Option<Agency>, Trip)>)
    ensures |kvs| == |trips|
    ensures forall i :: 0 <= i < |trips| ==> kvs[i] == (OfferKey(repo, trips[i]), trips[i])
  {
    seq(|trips|, i requires 0 <= i < |trips| => (OfferKey(repo, trips[i]), trips[i]))
  }

  /** Whether a trip joins the group `key`. */
  function BelongsTo(repo: AgencyRepo, key: Option<Agency>): Trip -> bool {
    t => OfferKey(repo, t) == key
  }

  /** The trips of group `key`, in input order. */
  function TripsOf(repo: AgencyRepo, trips: seq<Trip>, key: Option<Agency>): seq<Trip> {
    Filter(trips, BelongsTo(repo, key))
  }

  /** The list grouped under a key is the key's trips, in input order. */
  lemma {:induction false} ValuesOfOfferEntries(repo: AgencyRepo, trips: seq<Trip>, key: Option<Agency>)
    ensures ValuesOf(OfferEntries(repo, trips), key) == TripsOf(repo, trips, key)
  {
    if trips != [] {
      var init, last := trips[..|trips| - 1], trips[|trips| - 1];
      var kvs := OfferEntries(repo, trips);
      assert kvs[..|kvs| - 1] == OfferEntries(repo, init) by {
        forall i | 0 <= i < |init| ensures kvs[..|kvs| - 1][i] == OfferEntries(repo, init)[i] {
        }
      }
      ValuesOfOfferEntries(repo, init, key);
      InitLast(trips);
      FilterSnoc(init, last, BelongsTo(repo, key));
    }
  }

  /** The next trip is appended to the list of its group. */
  lemma OfferStep(repo: AgencyRepo, trips: seq<Trip>, i: nat)
    requires i < |trips|
    ensures GroupAll(OfferEntries(repo, trips[..i + 1]))
         == Append(GroupAll(OfferEntries(repo, trips[..i])), OfferKey(repo, trips[i]), trips[i])
  {
    var kvs := OfferEntries(repo, trips[..i + 1]);
    assert kvs[..|kvs| - 1] == OfferEntries(repo, trips[..i]);
  }

  /**
   * `__post_init__`: appends every valid trip to the list of its agency in a `defaultdict(list)`.
   * The groups come in order of first appearance, none is empty, each holds exactly its agency's
   * trips in input order, and together they hold every trip once.
   */
  method PostInit(repo: AgencyRepo, validTrips: seq<Trip>) returns (service: AgencyService)
    ensures service.agencyRepo == repo
    ensures service.offer == GroupAll(OfferEntries(repo, validTrips))
    ensures Valid(service.offer)
    ensures Keys(service.offer) == Distinct(Keys(OfferEntries(repo, validTrips)))
    ensures forall i :: 0 <= i < |service.offer| ==>
      service.offer[i].1 == TripsOf(repo, validTrips, service.offer[i].0) && service.offer[i].1 != []
    ensures TotalSize(service.offer) == |validTrips|
  {
    var grouped: Offer := [];
    for i := 0 to |validTrips|
      invariant grouped == GroupAll(OfferEntries(repo, validTrips[..i]))
    {
      OfferStep(repo, validTrips, i);
      grouped := Append(grouped, repo.GetById(validTrips[i].agencyId), validTrips[i]);
    }
    assert validTrips[..|validTrips|] == validTrips;
    OfferGroupsAreTrips(repo, validTrips);
    service := AgencyService(repo, grouped);
  }

  /** Every group of the offer is the non-empty list of its agency's trips, in input order. */
  lemma OfferGroupsAreTrips(repo: AgencyRepo, trips: seq<Trip>)
    ensures var offer := GroupAll(OfferEntries(repo, trips));
      forall i :: 0 <= i < |offer| ==> offer[i].1 == TripsOf(repo, trips, offer[i].0) && offer[i].1 != []
  {
    var offer := GroupAll(OfferEntries(repo, trips));
    forall i | 0 <= i < |offer| ensures offer[i].1 == TripsOf(repo, trips, offer[i].0) && offer[i].1 != [] {
      var key := offer[i].0;
      assert Keys(offer)[i] == key;
      assert Get(offer, key) == Some(offer[i].1);
      ValuesOfOfferEntries(repo, trips, key);
    }
  }

  /**
   * Grouping partitions the trips: a group holds a trip exactly when the trip's agency is the
   * group's, with all its copies, and in input order.
   */
  lemma GroupIsOrderedPart(repo: AgencyRepo, trips: seq<Trip>, key: Option<Agency>)
    ensures forall t :: t in TripsOf(repo, trips, key) <==> t in trips && OfferKey(repo, t) == key
    ensures forall t :: multiset(TripsOf(repo, trips, key))[t] == if OfferKey(repo, t) == key then multiset(trips)[t] else 0
    ensures IsSubsequence(TripsOf(repo, trips, key), trips)
  {
    FilterMembers(trips, BelongsTo(repo, key));
    FilterCount(trips, BelongsTo(repo, key));
    FilterIsSubsequence(trips, BelongsTo(repo, key));
  }

  // ---------------------------------------------------------------------------------------------
  // Sums and means of prices
  // ---------------------------------------------------------------------------------------------

  /** Every trip has a price. */
  predicate AllPriced(trips: seq<Trip>) {
    forall i :: 0 <= i < |trips| ==> trips[i].price.Some?
  }

  /** Trip `i` is the first without a price. */
  predicate IsFirstUnpriced(trips: seq<Trip>, i: int) {
    0 <= i < |trips| && trips[i].price.None? && forall j :: 0 <= j < i ==> trips[j].price.Some?
  }

  /** The error of `total + None`: the running total is the integer 0 before the first price, a Decimal after. */
  function AddNoneMessage(i: nat): string {
    "unsupported operand type(s) for +: '" + (if i == 0 then "int" else "decimal.Decimal") + "' and 'NoneType'"
  }

  /** `sum(trip.price for trip in trips)`: adds the prices in order, raising at the first missing one. */
  function PriceSum(trips: seq<Trip>): (r: Result<real>)
    ensures r.Success? <==> AllPriced(trips)
    ensures r.Failure? ==> exists i :: IsFirstUnpriced(trips, i) && r.error == TypeError(AddNoneMessage(i))
  {
    if trips == [] then Success(0.0)
    else
      var init, last := trips[..|trips| - 1], trips[|trips| - 1];
      assert forall j :: 0 <= j < |init| ==> init[j] == trips[j];
      var total :- PriceSum(init);
      match last.price
      case None =>
        assert IsFirstUnpriced(trips, |init|);
        Failure(TypeError(AddNoneMessage(|init|)))
      case Some(p) => Success(total + p)
  }

  /** The sum of two lists is the sum of the sums. */
  lemma {:induction false} PriceSumAppend(a: seq<Trip>, b: seq<Trip>)
    requires AllPriced(a) && AllPriced(b)
    ensures AllPriced(a + b)
    ensures PriceSum(a + b).value == PriceSum(a).value + PriceSum(b).value
  {
    assert forall i :: 0 <= i < |a + b| ==> (a + b)[i] == if i < |a| then a[i] else b[i - |a|];
    if b == [] {
      assert a + b == a;
    } else {
      var init := b[..|b| - 1];
      assert forall j :: 0 <= j < |init| ==> init[j] == b[j];
      PriceSumAppend(a, init);
      assert (a + b)[..|a + b| - 1] == a + init;
      var p := b[|b| - 1].price.value;
      assert PriceSum(a + b).value == PriceSum(a + init).value + p;
      assert PriceSum(b).value == PriceSum(init).value + p;
    }
  }

  /** When every price lies in `[lo, hi]`, the sum of `n` prices lies in `[n * lo, n * hi]`. */
  lemma {:induction false} PriceSumBounds(trips: seq<Trip>, lo: real, hi: real)
    requires forall i :: 0 <= i < |trips| ==> trips[i].price.Some? && lo <= trips[i].price.value <= hi
    ensures PriceSum(trips).Success?
    ensures (|trips| as real) * lo <= PriceSum(trips).value <= (|trips| as real) * hi
  {
    if trips != [] {
      var init := trips[..|trips| - 1];
      assert forall j :: 0 <= j < |init| ==> init[j] == trips[j];
      PriceSumBounds(init, lo, hi);
      var n := |init| as real;
      var total, p := PriceSum(init).value, trips[|trips| - 1].price.value;
      assert PriceSum(trips).value == total + p;
      BoundsStep(n, |trips| as real, total, p, lo, hi);
    }
  }

  /** A sum within `[n * lo, n * hi]` plus a value within `[lo, hi]` lies within `[m * lo, m * hi]` for `m = n + 1`. */
  lemma BoundsStep(n: real, m: real, total: real, p: real, lo: real, hi: real)
    requires m == n + 1.0
    requires n * lo <= total <= n * hi && lo <= p <= hi
    ensures m * lo <= total + p <= m * hi
  {
    assert m * lo == n * lo + lo && m * hi == n * hi + hi;
  }

  /** `_count_income_for_trips`: the sum of `get_income()` from 0, which is 1.9 % of the sum of the prices. */
  function CountIncomeForTrips(trips: seq<Trip>): (r: Result<real>)
    ensures r.Success? <==> AllPriced(trips)
    ensures r.Failure? ==> r.error == TypeError(PriceNotSetMessage)
    ensures r.Success? ==> r.value == PriceSum(trips).value * 0.019
  {
    if trips == [] then Success(0.0)
    else
      var init, last := trips[..|trips| - 1], trips[|trips| - 1];
      assert forall j :: 0 <= j < |init| ==> init[j] == trips[j];
      var total :- CountIncomeForTrips(init);
      var income :- Income(last);
      Success(total + income)
  }

  /** The income of trips that all have a non-negative price, as the valid trips do, is non-negative. */
  lemma {:induction false} IncomeNonNegative(trips: seq<Trip>)
    requires forall i :: 0 <= i < |trips| ==> trips[i].price.Some? && trips[i].price.value >= 0.0
    ensures CountIncomeForTrips(trips).Success? && CountIncomeForTrips(trips).value >= 0.0
  {
    if trips != [] {
      var init := trips[..|trips| - 1];
      assert forall j :: 0 <= j < |init| ==> init[j] == trips[j];
      IncomeNonNegative(init);
    }
  }

  /** The income of two lists of trips together is the sum of their incomes. */
  lemma IncomeAppend(a: seq<Trip>, b: seq<Trip>)
    requires AllPriced(a) && AllPriced(b)
    ensures CountIncomeForTrips(a + b).Success?
    ensures CountIncomeForTrips(a + b).value == CountIncomeForTrips(a).value + CountIncomeForTrips(b).value
  {
    PriceSumAppend(a, b);
  }

  /** `_mean_price_for_trips`: 0 for no trips, otherwise the sum of the prices over their number. */
  function MeanPriceForTrips(trips: seq<Trip>): (r: Result<real>)
    ensures trips == [] ==> r == Success(0.0)
    ensures r.Success? <==> AllPriced(trips)
    ensures r.Failure? ==> r.error == PriceSum(trips).error
    ensures r.Success? && trips != [] ==> r.value * (|trips| as real) == PriceSum(trips).value
  {
    if trips == [] then Success(0.0)
    else
      var total :- PriceSum(trips);
      Success(total / (|trips| as real))
  }

  /** The mean lies between the smallest and the largest price. */
  lemma MeanBetweenPrices(trips: seq<Trip>, lo: real, hi: real)
    requires trips != []
    requires forall i :: 0 <= i < |trips| ==> trips[i].price.Some? && lo <= trips[i].price.value <= hi
    ensures MeanPriceForTrips(trips).Success?
    ensures lo <= MeanPriceForTrips(trips).value <= hi
  {
    PriceSumBounds(trips, lo, hi);
    var n := |trips| as real;
    var m := MeanPriceForTrips(trips).value;
    assert m * n == PriceSum(trips).value;
    assert n * lo <= m * n <= n * hi;
  }

  /** Two prices of 100 and 200 have the mean 150, and the first of them is the closest to it. */
  lemma MeanOfTwo(a: Trip, b: Trip)
    requires a.price == Some(100.0) && b.price == Some(200.0)
    ensures MeanPriceForTrips([a, b]) == Success(150.0)
    ensures ClosestToMean([a, b], 150.0) == Success(a)
  {
    assert [a, b][..1] == [a];
    assert [a][..0] == [];
    assert PriceSum([a]) == Success(100.0);
    assert PriceSum([a, b]) == Success(300.0);
    assert ClosestIndex([a], 150.0) == 0;
  }

  // ---------------------------------------------------------------------------------------------
  // The trip closest to the mean
  // ---------------------------------------------------------------------------------------------

  function Abs(x: real): real {
    if x < 0.0 then -x else x
  }

  /** Trip `k` is the first whose price is nearest to `mean`. */
  predicate IsFirstClosest(trips: seq<Trip>, mean: real, k: int)
    requires AllPriced(trips)
  {
    && 0 <= k < |trips|
    && (forall j :: 0 <= j < |trips| ==> Abs(trips[k].price.value - mean) <= Abs(trips[j].price.value - mean))
    && (forall j :: 0 <= j < k ==> Abs(trips[j].price.value - mean) > Abs(trips[k].price.value - mean))
  }

  /** The position `min(trips, key=...)` finds: a later trip replaces the best only when strictly nearer. */
  function ClosestIndex(trips: seq<Trip>, mean: real): (k: nat)
    requires trips != [] && AllPriced(trips)
    ensures IsFirstClosest(trips, mean, k)
  {
    if |trips| == 1 then 0
    else
      var init := trips[..|trips| - 1];
      assert AllPriced(init) by { assert forall j :: 0 <= j < |init| ==> init[j] == trips[j]; }
      var k := ClosestIndex(init, mean);
      ClosestSnoc(trips, mean, k);
      var last := |trips| - 1;
      if Abs(trips[last].price.value - mean) < Abs(trips[k].price.value - mean) then last else k
  }

  /** The first nearest of all trips but the last stays the first nearest unless the last is strictly nearer. */
  lemma ClosestSnoc(trips: seq<Trip>, mean: real, k: nat)
    requires |trips| > 1 && AllPriced(trips)
    requires AllPriced(trips[..|trips| - 1]) && IsFirstClosest(trips[..|trips| - 1], mean, k)
    ensures var last := |trips| - 1;
      IsFirstClosest(trips, mean, if Abs(trips[last].price.value - mean) < Abs(trips[k].price.value - mean) then last else k)
  {
    var init := trips[..|trips| - 1];
    assert forall j :: 0 <= j < |init| ==> init[j] == trips[j];
  }

  /**
   * `min(trips, key=lambda trip: abs(trip.price - mean))`: the first trip nearest to the mean; no
   * trips raise, and so does a trip without a price, whose distance cannot be computed.
   */
  function ClosestToMean(trips: seq<Trip>, mean: real): (r: Result<Trip>)
    ensures r.Failure? <==> trips == [] || !AllPriced(trips)
    ensures trips == [] ==> r == Failure(ValueError(EmptyMinMessage))
    ensures trips != [] && !AllPriced(trips) ==> r == Failure(TypeError(SubtractNoneMessage))
    ensures r.Success? ==> r.value in trips
  {
    if trips == [] then Failure(ValueError(EmptyMinMessage))
    else if !AllPriced(trips) then Failure(TypeError(SubtractNoneMessage))
    else
      var k := ClosestIndex(trips, mean);
      Success(trips[k])
  }

  /** The trip found is the first of those nearest to the mean. */
  lemma ClosestToMeanIsFirstClosest(trips: seq<Trip>, mean: real)
    requires ClosestToMean(trips, mean).Success?
    ensures exists k :: IsFirstClosest(trips, mean, k) && ClosestToMean(trips, mean).value == trips[k]
  {
    var k := ClosestIndex(trips, mean);
    assert IsFirstClosest(trips, mean, k);
  }

  /** The report line of one agency: its name, with the mean price and the trip closest to it. */
  function MeanEntry(agency: Option<Agency>, trips: seq<Trip>): (r: Result<(string, (real, Trip))>)
    ensures r.Success? <==> agency.Some? && trips != [] && AllPriced(trips)
    ensures agency.None? && trips != [] && AllPriced(trips) ==> r == Failure(AttributeError(NoneNameMessage))
    ensures r.Success? ==> r.value.0 == agency.value.name && r.value.1.0 == MeanPriceForTrips(trips).value
    ensures r.Success? ==> r.value.1.1 == ClosestToMean(trips, r.value.1.0).value
  {
    var mean :- MeanPriceForTrips(trips);
    var closest :- ClosestToMean(trips, mean);
    if agency.None? then Failure(AttributeError(NoneNameMessage))
    else Success((agency.value.name, (mean, closest)))
  }

  /** Every agency of the offer has a report line. */
  predicate AllEntriesOk(offer: Offer) {
    forall i :: 0 <= i < |offer| ==> MeanEntry(offer[i].0, offer[i].1).Success?
  }

  /**
   * One agency's line, computed as the loop body does: the mean price first, then the trip closest
   * to it, and only then the agency's name.
   */
  method ReportLine(agency: Option<Agency>, trips: seq<Trip>) returns (r: Result<(string, (real, Trip))>)
    ensures r == MeanEntry(agency, trips)
  {
    var meanPrice := MeanPriceForTrips(trips);
    if meanPrice.Failure? {
      return Failure(meanPrice.error);
    }
    var minDif := ClosestToMean(trips, meanPrice.value);
    if minDif.Failure? {
      return Failure(minDif.error);
    }
    if agency.None? {
      return Failure(AttributeError(NoneNameMessage));
    }
    r := Success((agency.value.name, (meanPrice.value, minDif.value)));
  }

  /** The report of an offer whose lines can all be made: each name once, with its last agency's line. */
  lemma MeanReportLastWins(offer: Offer)
    requires AllEntriesOk(offer)
    ensures Valid(PutAll([], MeanEntries(offer)))
    ensures forall name :: Get(PutAll([], MeanEntries(offer)), name) == LastValue(MeanEntries(offer), name)
  {
    PutAllEmpty(MeanEntries(offer));
  }

  /** Every line can be made only when no agency of the offer is `None`. */
  lemma AllEntriesOkNamed(offer: Offer)
    requires AllEntriesOk(offer)
    ensures forall i :: 0 <= i < |offer| ==> offer[i].0.Some?
  {
    forall i | 0 <= i < |offer| ensures offer[i].0.Some? {
      assert MeanEntry(offer[i].0, offer[i].1).Success?;
    }
  }

  /** After the lines before it were made, the agency whose line fails is the first to fail. */
  lemma MeanReportFails(offer: Offer, i: nat, e: Error)
    requires i < |offer| && AllEntriesOk(offer[..i]) && MeanEntry(offer[i].0, offer[i].1) == Failure(e)
    ensures IsFirstFailingEntry(offer, i) && MeanEntry(offer[i].0, offer[i].1).error == e
  {
    assert forall j :: 0 <= j < i ==> offer[..i][j] == offer[j];
  }

  /** One pass of the report loop: agency `i`'s line assigned into the report of the agencies before it. */
  method AddReportLine(offer: Offer, i: nat, report: Dict<string, (real, Trip)>) returns (r: Result<Dict<string, (real, Trip)>>)
    requires i < |offer| && AllEntriesOk(offer[..i]) && report == PutAll([], MeanEntries(offer[..i]))
    ensures r.Failure? ==> IsFirstFailingEntry(offer, i) && r.error == MeanEntry(offer[i].0, offer[i].1).error
    ensures r.Success? ==> AllEntriesOk(offer[..i + 1]) && r.value == PutAll([], MeanEntries(offer[..i + 1]))
  {
    var line := ReportLine(offer[i].0, offer[i].1);
    if line.Failure? {
      MeanReportFails(offer, i, line.error);
      return Failure(line.error);
    }
    MeanReportStep(offer, i, line.value);
    r := Success(Put(report, line.value.0, line.value.1));
  }

  /** Agency `i` is the first whose report line cannot be made. */
  predicate IsFirstFailingEntry(offer: Offer, i: int) {
    && 0 <= i < |offer|
    && MeanEntry(offer[i].0, offer[i].1).Failure?
    && forall j :: 0 <= j < i ==> MeanEntry(offer[j].0, offer[j].1).Success?
  }

  /** The report lines of the offer, in offer order. */
  function MeanEntries(offer: Offer): (lines: seq<(string, (real, Trip))>)
    requires AllEntriesOk(offer)
    ensures |lines| == |offer|
  {
    if offer == [] then []
    else
      var init := offer[..|offer| - 1];
      assert forall j :: 0 <= j < |init| ==> init[j] == offer[j];
      MeanEntries(init) + [MeanEntry(offer[|offer| - 1].0, offer[|offer| - 1].1).value]
  }

  /** One more agency's line, its name with its mean price and closest trip, is assigned into the report. */
  lemma MeanReportStep(offer: Offer, i: nat, line: (string, (real, Trip)))
    requires i < |offer| && AllEntriesOk(offer[..i]) && MeanEntry(offer[i].0, offer[i].1) == Success(line)
    ensures AllEntriesOk(offer[..i + 1])
    ensures PutAll([], MeanEntries(offer[..i + 1])) == Put(PutAll([], MeanEntries(offer[..i])), line.0, line.1)
  {
    AllEntriesOkStep(offer, i);
    assert offer[..i + 1][..i] == offer[..i];
    assert MeanEntries(offer[..i + 1]) == MeanEntries(offer[..i]) + [line];
    PutAllSnoc([], MeanEntries(offer[..i]), line);
  }

  /** One more agency whose line can be made keeps every line of the prefix computable. */
  lemma AllEntriesOkStep(offer: Offer, i: nat)
    requires i < |offer| && AllEntriesOk(offer[..i]) && MeanEntry(offer[i].0, offer[i].1).Success?
    ensures AllEntriesOk(offer[..i + 1])
  {
    var prefix := offer[..i + 1];
    forall j | 0 <= j < |prefix| ensures MeanEntry(prefix[j].0, prefix[j].1).Success? {
      if j < i {
        assert prefix[j] == offer[..i][j];
      }
    }
  }

  // ---------------------------------------------------------------------------------------------
  // Trips per party size
  // ---------------------------------------------------------------------------------------------

  /** The party sizes of the trips, in order. */
  function PeopleCounts(trips: seq<Trip>): (ks: seq<Option<int>>)
    ensures |ks| == |trips|
    ensures forall i :: 0 <= i < |trips| ==> ks[i] == trips[i].numOfPeople
  {
    seq(|trips|, i requires 0 <= i < |trips| => trips[i].numOfPeople)
  }

  /** The party sizes of all trips are those of all trips but the last, then the last one's. */
  lemma PeopleCountsSnoc(trips: seq<Trip>)
    requires trips != []
    ensures PeopleCounts(trips) == PeopleCounts(trips[..|trips| - 1]) + [trips[|trips| - 1].numOfPeople]
    ensures PeopleCounts(trips)[..|trips| - 1] == PeopleCounts(trips[..|trips| - 1])
  {
    var a, b := PeopleCounts(trips), PeopleCounts(trips[..|trips| - 1]) + [trips[|trips| - 1].numOfPeople];
    forall i | 0 <= i < |a| ensures a[i] == b[i] {
      if i < |trips| - 1 {
        assert trips[..|trips| - 1][i] == trips[i];
      }
    }
  }

  /** The trips for `size` people, equal trips counted once. */
  function TripsWithPeople(trips: seq<Trip>, size: Option<int>): set<Trip> {
    set t | t in trips && t.numOfPeople == size
  }

  /** `grouped[trip.num_of_people].add(trip)` for each trip in order, on a `defaultdict(set)`. */
  function PeopleGroups(trips: seq<Trip>): (r: Dict<Option<int>, set<Trip>>)
    ensures Valid(r)
    ensures Keys(r) == Distinct(PeopleCounts(trips))
  {
    if trips == [] then []
    else
      var init, last := trips[..|trips| - 1], trips[|trips| - 1];
      PeopleCountsSnoc(trips);
      var g := PeopleGroups(init);
      var k := last.numOfPeople;
      Put(g, k, Get(g, k).GetOr({}) + {last})
  }

  /** Each party size that occurs holds exactly the trips for that many people; no other size is a key. */
  lemma {:induction false} PeopleGroupsGet(trips: seq<Trip>, k: Option<int>)
    ensures Get(PeopleGroups(trips), k) == if k in PeopleCounts(trips) then Some(TripsWithPeople(trips, k)) else None
  {
    if trips != [] {
      var init, last := trips[..|trips| - 1], trips[|trips| - 1];
      PeopleGroupsGet(init, k);
      PeopleGroupsGet(init, last.numOfPeople);
      PeopleGroupsGetSnoc(trips, k);
    }
  }

  /** The lookup after the last trip, from the lookups before it. */
  lemma PeopleGroupsGetSnoc(trips: seq<Trip>, k: Option<int>)
    requires trips != []
    requires var init := trips[..|trips| - 1];
      Get(PeopleGroups(init), k) == if k in PeopleCounts(init) then Some(TripsWithPeople(init, k)) else None
    requires var init, size := trips[..|trips| - 1], trips[|trips| - 1].numOfPeople;
      Get(PeopleGroups(init), size) == if size in PeopleCounts(init) then Some(TripsWithPeople(init, size)) else None
    ensures Get(PeopleGroups(trips), k) == if k in PeopleCounts(trips) then Some(TripsWithPeople(trips, k)) else None
  {
    var init, last := trips[..|trips| - 1], trips[|trips| - 1];
    var g, size := PeopleGroups(init), last.numOfPeople;
    var v := Get(g, size).GetOr({}) + {last};
    assert PeopleGroups(trips) == Put(g, size, v);
    PeopleCountsSnoc(trips);
    if k == size {
      TripsWithPeopleAbsent(init, k);
      TripsWithPeopleJoin(trips);
      assert v == TripsWithPeople(trips, k);
    } else {
      TripsWithPeopleOther(trips, k);
      assert Get(PeopleGroups(trips), k) == Get(g, k);
    }
  }

  /** Every group is the non-empty set of the trips for its party size. */
  lemma PeopleGroupsEntries(trips: seq<Trip>)
    ensures forall i :: 0 <= i < |PeopleGroups(trips)| ==>
      PeopleGroups(trips)[i].1 == TripsWithPeople(trips, PeopleGroups(trips)[i].0) && PeopleGroups(trips)[i].1 != {}
  {
    forall i | 0 <= i < |PeopleGroups(trips)| {
      PeopleGroupAt(trips, i);
    }
  }

  /** Group `i` is the non-empty set of the trips for its party size. */
  lemma PeopleGroupAt(trips: seq<Trip>, i: nat)
    requires i < |PeopleGroups(trips)|
    ensures PeopleGroups(trips)[i].1 == TripsWithPeople(trips, PeopleGroups(trips)[i].0)
    ensures PeopleGroups(trips)[i].1 != {}
  {
    var r := PeopleGroups(trips);
    var k := r[i].0;
    assert Keys(r)[i] == k;
    assert Get(r, k) == Some(r[i].1);
    PeopleGroupsGet(trips, k);
    assert k in PeopleCounts(trips);
    var j :| 0 <= j < |trips| && PeopleCounts(trips)[j] == k;
    assert trips[j] in r[i].1;
  }

  /** No trip has a party size that does not occur. */
  lemma TripsWithPeopleAbsent(trips: seq<Trip>, size: Option<int>)
    ensures size !in PeopleCounts(trips) ==> TripsWithPeople(trips, size) == {}
  {
    if size !in PeopleCounts(trips) {
      forall t | t in trips ensures t.numOfPeople != size {
        var i :| 0 <= i < |trips| && trips[i] == t;
        assert PeopleCounts(trips)[i] == t.numOfPeople;
      }
    }
  }

  /** The last trip joins the set of its own party size. */
  lemma TripsWithPeopleJoin(trips: seq<Trip>)
    requires trips != []
    ensures var init, last := trips[..|trips| - 1], trips[|trips| - 1];
      TripsWithPeople(trips, last.numOfPeople) == TripsWithPeople(init, last.numOfPeople) + {last}
  {
    InitLast(trips);
  }

  /** The last trip leaves the sets of the other party sizes alone. */
  lemma TripsWithPeopleOther(trips: seq<Trip>, k: Option<int>)
    requires trips != [] && k != trips[|trips| - 1].numOfPeople
    ensures TripsWithPeople(trips, k) == TripsWithPeople(trips[..|trips| - 1], k)
  {
    InitLast(trips);
  }

  // ---------------------------------------------------------------------------------------------
  // The most expensive trips of each party size
  // ---------------------------------------------------------------------------------------------

  /** Price `p` is not above `m`; an unset price is only "not above" itself. */
  predicate PriceAtMost(p: Option<real>, m: Option<real>) {
    p == m || (p.Some? && m.Some? && p.value <= m.value)
  }

  /** `max` can compare the prices of the group: a single trip, or trips that all have a price. */
  predicate Comparable(group: set<Trip>) {
    (forall t, u :: t in group && u in group ==> t == u) || (forall t :: t in group ==> t.price.Some?)
  }

  /** Python's type name of a price. */
  function TypeName(p: Option<real>): string {
    if p.None? then "NoneType" else "decimal.Decimal"
  }

  /** The trips of a group priced at its maximum. */
  function TopPriced(group: set<Trip>): (top: set<Trip>)
    ensures top <= group
  {
    set t | t in group && forall u :: u in group ==> PriceAtMost(u.price, t.price)
  }

  /** All the trips of a group have the same price. */
  predicate SamePrice(group: set<Trip>) {
    forall t, u :: t in group && u in group ==> t.price == u.price
  }

  /** A non-empty group of trips that all have the same price, as `item[1][0].price` assumes. */
  predicate SharedPrice(group: set<Trip>) {
    group != {} && SamePrice(group)
  }

  /** A price is not above another and the other not above it only when both are the same. */
  lemma PriceAtMostAntisymmetric(p: Option<real>, m: Option<real>)
    requires PriceAtMost(p, m) && PriceAtMost(m, p)
    ensures p == m
  {
  }

  /** `best` is the price of a trip of the group and no trip of the group is priced above it. */
  predicate IsMaxPrice(group: set<Trip>, best: Option<real>) {
    (exists t :: t in group && t.price == best) && forall t :: t in group ==> PriceAtMost(t.price, best)
  }

  /** A group `max` can scan has a largest price. */
  lemma {:induction false} MaxExists(group: set<Trip>)
    requires HasMax(group)
    ensures exists best :: IsMaxPrice(group, best)
    decreases |group|
  {
    var x :| x in group;
    var rest := group - {x};
    if rest == {} {
      assert group == {x};
      assert forall t :: t in group ==> PriceAtMost(t.price, x.price);
      assert IsMaxPrice(group, x.price);
    } else {
      var y :| y in rest;
      assert y != x && y in group;
      assert forall t :: t in group ==> t.price.Some?;
      assert HasMax(rest);
      MaxExists(rest);
      var b :| IsMaxPrice(rest, b);
      var w :| w in rest && w.price == b;
      if x.price.value > b.value {
        assert forall t :: t in group ==> PriceAtMost(t.price, x.price);
        assert IsMaxPrice(group, x.price);
      } else {
        assert w in group && forall t :: t in group ==> PriceAtMost(t.price, b);
        assert IsMaxPrice(group, b);
      }
    }
  }

  /** The trips of a group priced exactly `p`. */
  function AtPrice(group: set<Trip>, p: Option<real>): set<Trip> {
    set t | t in group && t.price == p
  }

  /** The top-priced trips of a group `max` can scan are a non-empty set sharing one price. */
  lemma TopPricedOfHasMax(group: set<Trip>)
    requires HasMax(group)
    ensures SharedPrice(TopPriced(group))
  {
    MaxExists(group);
    var best :| IsMaxPrice(group, best);
    TopPricedShape(group, best);
  }

  /** The most expensive trips of a group with a maximum all share its price, and there is at least one. */
  lemma TopPricedShape(group: set<Trip>, best: Option<real>)
    requires IsMaxPrice(group, best)
    ensures TopPriced(group) == AtPrice(group, best)
    ensures SharedPrice(TopPriced(group))
  {
    var w :| w in group && w.price == best;
    forall t | t in TopPriced(group) ensures t.price == best {
      PriceAtMostAntisymmetric(t.price, best);
    }
    assert w in TopPriced(group);
  }

  /**
   * `max(group, key=lambda x: x.price)` over a set, in whatever order the set yields its trips:
   * an empty set raises, and so does comparing an unset price with any other; a single trip needs
   * no comparison. The result is the largest price.
   */
  method MaxPrice(group: set<Trip>) returns (r: Result<Option<real>>)
    ensures r.Failure? <==> !HasMax(group)
    ensures group == {} ==> r == Failure(ValueError(EmptyMaxMessage))
    ensures group != {} && !Comparable(group) ==> r.Failure? && r.error.TypeError?
    ensures r.Success? ==> exists t :: t in group && t.price == r.value
    ensures r.Success? ==> forall t :: t in group ==> PriceAtMost(t.price, r.value)
  {
    if group == {} {
      return Failure(ValueError(EmptyMaxMessage));
    }
    var first :| first in group;
    var best := first.price;
    ghost var argMax := first;
    var rest := group - {first};
    while rest != {}
      invariant rest <= group && first !in rest
      invariant argMax in group && argMax !in rest && argMax.price == best
      invariant forall t :: t in group && t !in rest ==> PriceAtMost(t.price, best)
      invariant rest == group - {first} || (best.Some? && forall t :: t in group && t !in rest ==> t.price.Some?)
      decreases |rest|
    {
      var t :| t in rest;
      if t.price.None? || best.None? {
        assert t != first && t in group;
        assert best.None? ==> first.price.None?;
        UnsetPriceNotComparable(group, t, first);
        return Failure(TypeError("'>' not supported between instances of '" + TypeName(t.price) + "' and '" + TypeName(best) + "'"));
      }
      if t.price.value > best.value {
        best := t.price;
        argMax := t;
      }
      rest := rest - {t};
    }
    if group != {first} {
      assert forall t :: t in group ==> t.price.Some?;
    }
    assert Comparable(group);
    r := Success(best);
  }

  /** Two different trips of a group, one of them without a price, cannot be compared by `max`. */
  lemma UnsetPriceNotComparable(group: set<Trip>, a: Trip, b: Trip)
    requires a in group && b in group && a != b && (a.price.None? || b.price.None?)
    ensures !HasMax(group)
  {
  }

  /** `max` finds a largest price in the group. */
  predicate HasMax(group: set<Trip>) {
    group != {} && Comparable(group)
  }

  /** Every group of the report has a maximum price. */
  predicate GroupsHaveMax(report: Dict<Option<int>, set<Trip>>) {
    forall i :: 0 <= i < |report| ==> HasMax(report[i].1)
  }

  /** Group `i` is the first without a maximum price. */
  predicate IsFirstWithoutMax(report: Dict<Option<int>, set<Trip>>, i: int) {
    0 <= i < |report| && !HasMax(report[i].1) && forall j :: 0 <= j < i ==> HasMax(report[j].1)
  }

  /** Each party size with the trips of its group priced at the group's maximum. */
  function TopGroups(report: Dict<Option<int>, set<Trip>>): (tops: Dict<Option<int>, set<Trip>>)
    ensures Keys(tops) == Keys(report)
    ensures forall i :: 0 <= i < |report| ==> tops[i] == (report[i].0, TopPriced(report[i].1))
  {
    var tops := seq(|report|, i requires 0 <= i < |report| => (report[i].0, TopPriced(report[i].1)));
    assert Keys(tops) == Keys(report);
    tops
  }

  /**
   * The first loop of `report_max_price_for_quantity_report`: under each party size, the trips of
   * its group whose price equals the group's maximum.
   */
  method MaxPriceGroups(report: Dict<Option<int>, set<Trip>>) returns (r: Result<Dict<Option<int>, set<Trip>>>)
    requires Valid(report)
    ensures r.Success? <==> GroupsHaveMax(report)
    ensures r.Failure? ==> exists i :: (IsFirstWithoutMax(report, i) &&
      if report[i].1 == {} then r.error == ValueError(EmptyMaxMessage) else r.error.TypeError?)
    ensures r.Success? ==> r.value == TopGroups(report) && Valid(r.value)
  {
    var grouped: Dict<Option<int>, set<Trip>> := [];
    for i := 0 to |report|
      invariant GroupsHaveMax(report[..i])
      invariant grouped == TopGroups(report[..i])
    {
      var next := AddTopGroup(report, i, grouped);
      if next.Failure? {
        return Failure(next.error);
      }
      grouped := next.value;
    }
    assert report[..|report|] == report;
    r := Success(grouped);
  }

  /** One pass of the first loop: group `i`'s top-priced trips assigned after those of the groups before it. */
  method AddTopGroup(report: Dict<Option<int>, set<Trip>>, i: nat, grouped: Dict<Option<int>, set<Trip>>)
    returns (r: Result<Dict<Option<int>, set<Trip>>>)
    requires Valid(report) && i < |report| && GroupsHaveMax(report[..i]) && grouped == TopGroups(report[..i])
    ensures r.Failure? ==> IsFirstWithoutMax(report, i)
    ensures r.Failure? ==> if report[i].1 == {} then r.error == ValueError(EmptyMaxMessage) else r.error.TypeError?
    ensures r.Success? ==> GroupsHaveMax(report[..i + 1]) && r.value == TopGroups(report[..i + 1])
  {
    var top := TopPricedGroup(report[i].1);
    if top.Failure? {
      assert forall j :: 0 <= j < i ==> report[..i][j] == report[j];
      return Failure(top.error);
    }
    GroupsHaveMaxStep(report, i);
    TopGroupsStep(report, i);
    r := Success(Put(grouped, report[i].0, top.value));
  }

  /**
   * The body of the first loop for one group: `max` finds the largest price, then the trips at that
   * price are kept.
   */
  method TopPricedGroup(group: set<Trip>) returns (r: Result<set<Trip>>)
    ensures r.Success? <==> HasMax(group)
    ensures group == {} ==> r == Failure(ValueError(EmptyMaxMessage))
    ensures group != {} && r.Failure? ==> r.error.TypeError?
    ensures r.Success? ==> r.value == TopPriced(group)
  {
    var maxPrice := MaxPrice(group);
    if maxPrice.Failure? {
      return Failure(maxPrice.error);
    }
    assert IsMaxPrice(group, maxPrice.value);
    TopPricedShape(group, maxPrice.value);
    r := Success(AtPrice(group, maxPrice.value));
  }

  /** One more group with a maximum extends the prefix whose groups all have one. */
  lemma GroupsHaveMaxStep(report: Dict<Option<int>, set<Trip>>, i: nat)
    requires i < |report| && GroupsHaveMax(report[..i]) && HasMax(report[i].1)
    ensures GroupsHaveMax(report[..i + 1])
  {
    var prefix := report[..i + 1];
    forall j | 0 <= j < |prefix| ensures HasMax(prefix[j].1) {
      if j < i {
        assert prefix[j] == report[..i][j];
      }
    }
  }

  /** When every group has a maximum, every group of top-priced trips is non-empty and shares one price. */
  lemma TopGroupsShared(report: Dict<Option<int>, set<Trip>>)
    requires GroupsHaveMax(report)
    ensures forall i :: 0 <= i < |report| ==> SharedPrice(TopGroups(report)[i].1)
  {
    forall i | 0 <= i < |report| ensures SharedPrice(TopGroups(report)[i].1) {
      TopPricedOfHasMax(report[i].1);
    }
  }

  /** One more group's top-priced trips are assigned; in a dict its key is new, so they go last. */
  lemma TopGroupsStep(report: Dict<Option<int>, set<Trip>>, i: nat)
    requires Valid(report) && i < |report|
    ensures Put(TopGroups(report[..i]), report[i].0, TopPriced(report[i].1)) == TopGroups(report[..i + 1])
  {
    var tops := TopGroups(report[..i]);
    var key := report[i].0;
    assert key !in Keys(tops) by {
      forall j | 0 <= j < i ensures Keys(tops)[j] != key {
        assert Keys(tops)[j] == Keys(report)[j] && key == Keys(report)[i];
      }
    }
    assert TopGroups(report[..i + 1]) == tops + [(key, TopPriced(report[i].1))];
  }

  /** The error text of `price / key` when either side is unset. */
  function DivideNoneMessage(price: Option<real>, key: Option<int>): string {
    "unsupported operand type(s) for /: '" + TypeName(price) + "' and '" + (if key.None? then "NoneType" else "int") + "'"
  }

  /**
   * `price / key` in Decimal arithmetic, the sort key of a group: unset operands raise `TypeError`,
   * a non-zero price over zero people raises `DivisionByZero` (a `ZeroDivisionError`), and zero
   * over zero raises `InvalidOperation`.
   */
  function PerPersonPrice(key: Option<int>, price: Option<real>): (r: Result<real>)
    ensures r.Success? <==> key.Some? && price.Some? && key.value != 0
    ensures key.None? || price.None? ==> r == Failure(TypeError(DivideNoneMessage(price, key)))
    ensures key == Some(0) && price.Some? && price.value != 0.0 ==> r.Failure? && r.error.ZeroDivisionError?
    ensures key == Some(0) && price == Some(0.0) ==> r.Failure? && r.error.InvalidOperation?
    ensures r.Success? ==> r.value * (key.value as real) == price.value
  {
    if price.None? || key.None? then Failure(TypeError(DivideNoneMessage(price, key)))
    else if key.value == 0 then
      if price.value == 0.0 then Failure(InvalidOperation("[<class 'decimal.DivisionUndefined'>]"))
      else Failure(ZeroDivisionError("[<class 'decimal.DivisionByZero'>]"))
    else Success(price.value / (key.value as real))
  }

  /** The price shared by a non-empty group of equally priced trips: the price of `item[1][0]`. */
  ghost function GroupPrice(group: set<Trip>): Option<real>
    requires group != {}
  {
    var t :| t in group; t.price
  }

  /** Every group has a computable price per person. */
  ghost predicate AllKeysOk(groups: Dict<Option<int>, set<Trip>>) {
    forall i :: 0 <= i < |groups| ==> groups[i].1 != {} && PerPersonPrice(groups[i].0, GroupPrice(groups[i].1)).Success?
  }

  /** Group `i` is the first whose price per person cannot be computed. */
  ghost predicate IsFirstBadKey(groups: Dict<Option<int>, set<Trip>>, i: int) {
    && 0 <= i < |groups|
    && groups[i].1 != {} && PerPersonPrice(groups[i].0, GroupPrice(groups[i].1)).Failure?
    && forall j :: 0 <= j < i ==> groups[j].1 != {} && PerPersonPrice(groups[j].0, GroupPrice(groups[j].1)).Success?
  }

  /** Each group with its price per person as sort key, in dict order. */
  ghost function Keyed(groups: Dict<Option<int>, set<Trip>>): (s: seq<(real, (Option<int>, set<Trip>))>)
    requires AllKeysOk(groups)
    ensures |s| == |groups| && Unkeyed(s) == groups
    ensures forall i :: 0 <= i < |groups| ==> s[i] == (PerPersonPrice(groups[i].0, GroupPrice(groups[i].1)).value, groups[i])
  {
    seq(|groups|, i requires 0 <= i < |groups| => (PerPersonPrice(groups[i].0, GroupPrice(groups[i].1)).value, groups[i]))
  }

  /**
   * `dict(sorted(groups.items(), key=lambda item: item[1][0].price / item[0], reverse=True))`: every
   * key is computed first, in dict order, and the first that cannot be raises; then the groups are
   * sorted stably, largest price per person first.
   */
  method RankByPricePerPerson(groups: Dict<Option<int>, set<Trip>>) returns (r: Result<Dict<Option<int>, set<Trip>>>)
    requires forall i :: 0 <= i < |groups| ==> SharedPrice(groups[i].1)
    ensures r.Success? <==> AllKeysOk(groups)
    ensures r.Failure? ==> exists i :: IsFirstBadKey(groups, i) && r.error == PerPersonPrice(groups[i].0, GroupPrice(groups[i].1)).error
    ensures r.Success? ==> r.value == Unkeyed(SortDesc(Keyed(groups)))
  {
    var keyed: seq<(real, (Option<int>, set<Trip>))> := [];
    for i := 0 to |groups|
      invariant AllKeysOk(groups[..i])
      invariant keyed == Keyed(groups[..i])
    {
      var perPerson := GroupKey(groups[i].0, groups[i].1);
      if perPerson.Failure? {
        RankFails(groups, i);
        return Failure(perPerson.error);
      }
      RankStep(groups, i, keyed);
      keyed := keyed + [(perPerson.value, groups[i])];
    }
    assert groups[..|groups|] == groups;
    r := Success(Unkeyed(SortDesc(keyed)));
  }

  /** `item[1][0].price / item[0]` for one group: the price of any of its trips over the key. */
  method GroupKey(key: Option<int>, group: set<Trip>) returns (r: Result<real>)
    requires SharedPrice(group)
    ensures r == PerPersonPrice(key, GroupPrice(group))
  {
    var t :| t in group;
    assert t.price == GroupPrice(group);
    r := PerPersonPrice(key, t.price);
  }

  /** A group whose key fails after groups whose keys all succeed is the first bad one. */
  lemma RankFails(groups: Dict<Option<int>, set<Trip>>, i: nat)
    requires i < |groups| && AllKeysOk(groups[..i]) && groups[i].1 != {}
    requires PerPersonPrice(groups[i].0, GroupPrice(groups[i].1)).Failure?
    ensures IsFirstBadKey(groups, i)
  {
    assert forall j :: 0 <= j < i ==> groups[..i][j] == groups[j];
  }

  /** A group whose key succeeds extends the keyed prefix by its own entry. */
  lemma RankStep(groups: Dict<Option<int>, set<Trip>>, i: nat, keyed: seq<(real, (Option<int>, set<Trip>))>)
    requires i < |groups| && AllKeysOk(groups[..i]) && keyed == Keyed(groups[..i]) && groups[i].1 != {}
    requires PerPersonPrice(groups[i].0, GroupPrice(groups[i].1)).Success?
    ensures AllKeysOk(groups[..i + 1])
    ensures keyed + [(PerPersonPrice(groups[i].0, GroupPrice(groups[i].1)).value, groups[i])] == Keyed(groups[..i + 1])
  {
    assert forall j :: 0 <= j < i ==> groups[..i][j] == groups[j];
    assert forall j :: 0 <= j < i + 1 ==> groups[..i + 1][j] == groups[j];
  }

  /**
   * The ranking is a rearrangement of the groups, each ranked by its own price per person, largest
   * first; groups with the same price per person keep their dict order.
   */
  lemma RankingIsStableSort(groups: Dict<Option<int>, set<Trip>>, v: real)
    requires AllKeysOk(groups)
    ensures multiset(Unkeyed(SortDesc(Keyed(groups)))) == multiset(groups)
    ensures forall i :: 0 <= i < |groups| ==>
      var e := SortDesc(Keyed(groups))[i];
      e.1.1 != {} && PerPersonPrice(e.1.0, GroupPrice(e.1.1)) == Success(e.0)
    ensures SortedDesc(SortDesc(Keyed(groups)))
    ensures WithKey(SortDesc(Keyed(groups)), v) == WithKey(Keyed(groups), v)
  {
    var s := SortDesc(Keyed(groups));
    UnkeyedPermutation(s, Keyed(groups));
    forall i | 0 <= i < |groups|
      ensures s[i].1.1 != {} && PerPersonPrice(s[i].1.0, GroupPrice(s[i].1.1)) == Success(s[i].0)
    {
      assert s[i] in multiset(Keyed(groups));
      var j :| 0 <= j < |groups| && Keyed(groups)[j] == s[i];
    }
    SortDescStable(Keyed(groups), v);
  }

  /** One traveller at 1200 outranks four at 900 (225 each). */
  lemma RankingExample(solo: Trip, family: Trip)
    requires solo.price == Some(1200.0) && family.price == Some(900.0)
    ensures var groups := [(Some(4), {family}), (Some(1), {solo})];
      AllKeysOk(groups) && Unkeyed(SortDesc(Keyed(groups))) == [(Some(1), {solo}), (Some(4), {family})]
  {
    var a, b := (225.0, (Some(4), {family})), (1200.0, (Some(1), {solo}));
    KeyedExample(solo, family);
    SortDescTwo(a, b);
    assert Unkeyed([b, a]) == [b.1, a.1];
  }

  /** The keys of the example groups are 225 and 1200. */
  lemma KeyedExample(solo: Trip, family: Trip)
    requires solo.price == Some(1200.0) && family.price == Some(900.0)
    ensures var groups := [(Some(4), {family}), (Some(1), {solo})];
      AllKeysOk(groups) && Keyed(groups) == [(225.0, (Some(4), {family})), (1200.0, (Some(1), {solo}))]
  {
    assert GroupPrice({family}) == Some(900.0);
    assert GroupPrice({solo}) == Some(1200.0);
  }

  // ---------------------------------------------------------------------------------------------
  // Top agencies per destination
  // ---------------------------------------------------------------------------------------------

  /** The message of `int(None)` (the wording of Python 3.10 and later). */
  const IntOfNoneMessage: string := "int() argument must be a string, a bytes-like object or a real number, not 'NoneType'"

  /**
   * A row of the per-destination maxima: destination, agency id, number of trips. The join on equal
   * destinations drops a NULL destination, but a trip's agency id may be NULL.
   */
  type MaxRow = (string, Option<int>, int)

  /** No row has a NULL agency id. */
  predicate NoNullIds(rows: seq<MaxRow>) {
    forall i :: 0 <= i < |rows| ==> rows[i].1.Some?
  }

  /** Every row's agency id is set and stored in the repository. */
  predicate AllIdsKnown(repo: AgencyRepo, rows: seq<MaxRow>) {
    forall i :: 0 <= i < |rows| ==> rows[i].1.Some? && rows[i].1.value in Keys(repo.agencies)
  }

  /**
   * `agency_name_for_id(int(row[1]))` as written: `int()` raises for a NULL id, and the lookup raises
   * for an id the repository does not store; otherwise the name is the documented lookup's.
   */
  function RowName(repo: AgencyRepo, row: MaxRow): (r: Result<string>)
    ensures r.Success? <==> row.1.Some? && row.1.value in Keys(repo.agencies)
    ensures r.Success? ==> r.value == repo.AgencyNameOrUnknown(row.1.value)
    ensures r.Failure? ==> r.error == if row.1.None? then TypeError(IntOfNoneMessage)
                                     else AttributeError("'str' object has no attribute 'name'")
  {
    match row.1
    case None => Failure(TypeError(IntOfNoneMessage))
    case Some(id) =>
      AgencyNameOrUnknownAgrees(repo, id);
      repo.AgencyNameForId(id)
  }

  /** Each row's destination paired with the documented lookup's name for its agency. */
  function NameEntries(repo: AgencyRepo, rows: seq<MaxRow>): (kvs: seq<(string, string)>)
    requires NoNullIds(rows)
    ensures |kvs| == |rows|
    ensures forall i :: 0 <= i < |rows| ==> kvs[i] == (rows[i].0, repo.AgencyNameOrUnknown(rows[i].1.value))
  {
    seq(|rows|, i requires 0 <= i < |rows| => (rows[i].0, repo.AgencyNameOrUnknown(rows[i].1.value)))
  }

  /** The agency ids of the rows for `destination`, in row order. */
  function IdsFor(rows: seq<MaxRow>, destination: string): (ids: seq<int>)
    requires NoNullIds(rows)
    ensures forall x :: x in ids ==> exists i :: 0 <= i < |rows| && rows[i].0 == destination && rows[i].1 == Some(x)
  {
    if rows == [] then []
    else
      var init, last := rows[..|rows| - 1], rows[|rows| - 1];
      assert forall i :: 0 <= i < |init| ==> init[i] == rows[i];
      IdsFor(init, destination) + (if last.0 == destination then [last.1.value] else [])
  }

  /** The documented lookup's names of the agencies with the given ids, in order. */
  function AgencyNames(repo: AgencyRepo, ids: seq<int>): (names: seq<string>)
    ensures |names| == |ids|
    ensures forall i :: 0 <= i < |ids| ==> names[i] == repo.AgencyNameOrUnknown(ids[i])
  {
    seq(|ids|, i requires 0 <= i < |ids| => repo.AgencyNameOrUnknown(ids[i]))
  }

  /** The names listed under a destination are the names of its rows' agencies, in row order. */
  lemma {:induction false} NamesForDestination(repo: AgencyRepo, rows: seq<MaxRow>, destination: string)
    requires NoNullIds(rows)
    ensures ValuesOf(NameEntries(repo, rows), destination) == AgencyNames(repo, IdsFor(rows, destination))
  {
    if rows != [] {
      var init, last := rows[..|rows| - 1], rows[|rows| - 1];
      assert forall i :: 0 <= i < |init| ==> init[i] == rows[i];
      var kvs, front := NameEntries(repo, rows), NameEntries(repo, init);
      NameEntriesInit(repo, rows);
      NamesForDestination(repo, init, destination);
      var ids := IdsFor(init, destination);
      if last.0 == destination {
        AgencyNamesSnoc(repo, ids, last.1.value);
        assert ValuesOf(kvs, destination) == ValuesOf(front, destination) + [repo.AgencyNameOrUnknown(last.1.value)];
        assert IdsFor(rows, destination) == ids + [last.1.value];
      } else {
        assert ValuesOf(kvs, destination) == ValuesOf(front, destination);
        assert IdsFor(rows, destination) == ids;
      }
    }
  }

  /** The names listed under every destination, as `NamesForDestination` states for one. */
  lemma NamesForEveryDestination(repo: AgencyRepo, rows: seq<MaxRow>)
    requires NoNullIds(rows)
    ensures forall d :: d in Keys(GroupAll(NameEntries(repo, rows))) ==>
      Get(GroupAll(NameEntries(repo, rows)), d) == Some(AgencyNames(repo, IdsFor(rows, d)))
  {
    forall d | d in Keys(GroupAll(NameEntries(repo, rows)))
      ensures Get(GroupAll(NameEntries(repo, rows)), d) == Some(AgencyNames(repo, IdsFor(rows, d)))
    {
      NamesForDestination(repo, rows, d);
    }
  }

  /** The entries of all rows but the last, then the last row's entry. */
  lemma NameEntriesInit(repo: AgencyRepo, rows: seq<MaxRow>)
    requires rows != [] && NoNullIds(rows)
    ensures NoNullIds(rows[..|rows| - 1])
    ensures var kvs := NameEntries(repo, rows);
      kvs[..|kvs| - 1] == NameEntries(repo, rows[..|rows| - 1])
      && kvs[|kvs| - 1] == (rows[|rows| - 1].0, repo.AgencyNameOrUnknown(rows[|rows| - 1].1.value))
  {
    var init := rows[..|rows| - 1];
    assert forall i :: 0 <= i < |init| ==> init[i] == rows[i];
    var kvs, front := NameEntries(repo, rows), NameEntries(repo, init);
    assert forall i :: 0 <= i < |front| ==> kvs[..|kvs| - 1][i] == front[i];
  }

  /** The names of one more id are the names before it, then its own. */
  lemma AgencyNamesSnoc(repo: AgencyRepo, ids: seq<int>, x: int)
    ensures AgencyNames(repo, ids + [x]) == AgencyNames(repo, ids) + [repo.AgencyNameOrUnknown(x)]
  {
    var a, b := AgencyNames(repo, ids + [x]), AgencyNames(repo, ids) + [repo.AgencyNameOrUnknown(x)];
    assert forall i :: 0 <= i < |a| ==> a[i] == b[i];
  }

  /**
   * Rows ordered by agency id within each destination, as `ORDER BY t.destination, t.agency_id`
   * delivers them, list each destination's agencies by ascending id.
   */
  lemma {:induction false} IdsForAscending(rows: seq<MaxRow>, destination: string)
    requires NoNullIds(rows)
    requires forall i, j :: 0 <= i < j < |rows| && rows[i].0 == rows[j].0 ==> rows[i].1.value <= rows[j].1.value
    ensures forall i, j :: 0 <= i < j < |IdsFor(rows, destination)| ==> IdsFor(rows, destination)[i] <= IdsFor(rows, destination)[j]
  {
    if rows != [] {
      var init, last := rows[..|rows| - 1], rows[|rows| - 1];
      assert forall i :: 0 <= i < |init| ==> init[i] == rows[i];
      IdsForAscending(init, destination);
      var ids := IdsFor(init, destination);
      assert IdsFor(rows, destination) == ids + (if last.0 == destination then [last.1.value] else []);
      if last.0 == destination {
        forall x | x in ids ensures x <= last.1.value {
          var i :| 0 <= i < |init| && init[i].0 == destination && init[i].1 == Some(x);
          assert rows[i] == init[i];
        }
        var all := ids + [last.1.value];
        forall i, j | 0 <= i < j < |all| ensures all[i] <= all[j] {
          if j == |ids| {
            assert all[i] == ids[i] && ids[i] in ids;
          } else {
            assert all[i] == ids[i] && all[j] == ids[j];
          }
        }
      }
    }
  }

  /** Where every id is known, each row's name is the one the written lookup returns. */
  lemma KnownIdsNamed(repo: AgencyRepo, rows: seq<MaxRow>)
    requires AllIdsKnown(repo, rows)
    ensures NoNullIds(rows)
    ensures forall i :: 0 <= i < |rows| ==>
      repo.AgencyNameForId(rows[i].1.value) == Success(NameEntries(repo, rows)[i].1)
  {
    forall i | 0 <= i < |rows|
      ensures repo.AgencyNameForId(rows[i].1.value) == Success(NameEntries(repo, rows)[i].1)
    {
      AgencyNameOrUnknownAgrees(repo, rows[i].1.value);
    }
  }

  /** One more row's agency name is appended under its destination. */
  lemma NamesStep(repo: AgencyRepo, front: seq<MaxRow>, row: MaxRow)
    requires NoNullIds(front) && row.1.Some?
    ensures NoNullIds(front + [row])
    ensures GroupAll(NameEntries(repo, front + [row]))
         == Append(GroupAll(NameEntries(repo, front)), row.0, repo.AgencyNameOrUnknown(row.1.value))
  {
    var rows := front + [row];
    assert forall j :: 0 <= j < |front| ==> rows[j] == front[j];
    var kvs, entries := NameEntries(repo, rows), NameEntries(repo, front);
    assert forall j :: 0 <= j < |front| ==> kvs[j] == entries[j];
    assert kvs == entries + [(row.0, repo.AgencyNameOrUnknown(row.1.value))];
    GroupAllAppend(entries, (row.0, repo.AgencyNameOrUnknown(row.1.value)));
  }

  /** A row with a stored id extends rows whose ids are all stored. */
  lemma AllIdsKnownSnoc(repo: AgencyRepo, front: seq<MaxRow>, row: MaxRow)
    requires AllIdsKnown(repo, front) && row.1.Some? && row.1.value in Keys(repo.agencies)
    ensures AllIdsKnown(repo, front + [row])
  {
    var rows := front + [row];
    assert forall j :: 0 <= j < |front| ==> rows[j] == front[j];
  }

  /** A row whose agency is known extends the known rows before it and appends its name. */
  lemma RowNameStep(repo: AgencyRepo, rows: seq<MaxRow>, i: nat)
    requires i < |rows| && AllIdsKnown(repo, rows[..i]) && NoNullIds(rows[..i])
    requires RowName(repo, rows[i]).Success?
    ensures AllIdsKnown(repo, rows[..i + 1]) && NoNullIds(rows[..i + 1])
    ensures GroupAll(NameEntries(repo, rows[..i + 1]))
         == Append(GroupAll(NameEntries(repo, rows[..i])), rows[i].0, RowName(repo, rows[i]).value)
  {
    assert rows[..i + 1] == rows[..i] + [rows[i]];
    NamesStep(repo, rows[..i], rows[i]);
    AllIdsKnownSnoc(repo, rows[..i], rows[i]);
  }

  /** A row whose lookup raises makes the rows not all known. */
  lemma UnknownRowFails(repo: AgencyRepo, rows: seq<MaxRow>, i: nat)
    requires i < |rows| && RowName(repo, rows[i]).Failure?
    ensures !AllIdsKnown(repo, rows)
  {
  }

  /**
   * The per-destination report with the documented lookup: a NULL agency id still fails in `int()`,
   * and an id the repository does not store is listed as `'Unknown agency'`.
   */
  function ReportOrUnknown(repo: AgencyRepo, rows: seq<MaxRow>): (r: Result<Dict<string, seq<string>>>)
    ensures r.Success? <==> NoNullIds(rows)
    ensures r.Failure? ==> r.error == TypeError(IntOfNoneMessage)
    ensures r.Success? ==> Valid(r.value) && Keys(r.value) == Distinct(Keys(NameEntries(repo, rows)))
    ensures r.Success? ==> forall d :: d in Keys(r.value) ==> Get(r.value, d) == Some(AgencyNames(repo, IdsFor(rows, d)))
  {
    if NoNullIds(rows) then
      NamesForEveryDestination(repo, rows);
      Success(GroupAll(NameEntries(repo, rows)))
    else
      Failure(TypeError(IntOfNoneMessage))
  }

  // ---------------------------------------------------------------------------------------------
  // The service
  // ---------------------------------------------------------------------------------------------

  /** The number of trips of each agency, in offer order. */
  function TripCounts(offer: Offer): (counts: seq<(Option<Agency>, int)>)
    ensures |counts| == |offer|
    ensures forall i :: 0 <= i < |offer| ==> counts[i] == (offer[i].0, |offer[i].1|)
  {
    seq(|offer|, i requires 0 <= i < |offer| => (offer[i].0, |offer[i].1|))
  }

  /** Every trip of the offer has a price. */
  predicate AllGroupsPriced(offer: Offer) {
    forall i :: 0 <= i < |offer| ==> AllPriced(offer[i].1)
  }

  /** The income of each agency, in offer order. */
  function Incomes(offer: Offer): (incomes: seq<(Option<Agency>, real)>)
    requires AllGroupsPriced(offer)
    ensures Keys(incomes) == Keys(offer)
  {
    if offer == [] then []
    else
      var init, last := offer[..|offer| - 1], offer[|offer| - 1];
      assert forall j :: 0 <= j < |init| ==> init[j] == offer[j];
      var incomes := Incomes(init) + [(last.0, CountIncomeForTrips(last.1).value)];
      assert Keys(incomes) == Keys(Incomes(init)) + [last.0];
      KeysInit(offer);
      incomes
  }

  /** One more agency's income is assigned; in a dict its key is new, so it goes last. */
  lemma IncomesStep(offer: Offer, i: nat)
    requires Valid(offer) && i < |offer| && AllGroupsPriced(offer[..i]) && AllPriced(offer[i].1)
    ensures AllGroupsPriced(offer[..i + 1])
    ensures Incomes(offer[..i + 1])
         == Put(Incomes(offer[..i]), offer[i].0, CountIncomeForTrips(offer[i].1).value)
  {
    assert offer[..i + 1][..i] == offer[..i];
    assert forall j :: 0 <= j < i ==> offer[..i + 1][j] == offer[j];
    var incomes := Incomes(offer[..i]);
    assert offer[i].0 !in Keys(incomes) by {
      forall j | 0 <= j < i ensures Keys(incomes)[j] != offer[i].0 {
        assert Keys(incomes)[j] == Keys(offer)[j] && offer[i].0 == Keys(offer)[i];
      }
    }
  }

  /** One pass of the income loop: agency `i`'s income assigned after those of the agencies before it. */
  method AddIncome(offer: Offer, i: nat, incomes: Dict<Option<Agency>, real>) returns (r: Result<Dict<Option<Agency>, real>>)
    requires Valid(offer) && i < |offer| && AllGroupsPriced(offer[..i]) && incomes == Incomes(offer[..i])
    ensures r.Failure? ==> !AllPriced(offer[i].1) && r.error == TypeError(PriceNotSetMessage)
    ensures r.Success? ==> AllGroupsPriced(offer[..i + 1]) && r.value == Incomes(offer[..i + 1])
  {
    var income := CountIncomeForTrips(offer[i].1);
    if income.Failure? {
      return Failure(income.error);
    }
    IncomesStep(offer, i);
    r := Success(Put(incomes, offer[i].0, income.value));
  }

  /** One pass of the per-destination loop: row `i`'s agency name appended under its destination. */
  method AddRowName(repo: AgencyRepo, rows: seq<MaxRow>, i: nat, report: Dict<string, seq<string>>)
    returns (r: Result<Dict<string, seq<string>>>)
    requires i < |rows| && AllIdsKnown(repo, rows[..i])
    requires NoNullIds(rows[..i]) && report == GroupAll(NameEntries(repo, rows[..i]))
    ensures r.Failure? <==> RowName(repo, rows[i]).Failure?
    ensures r.Failure? ==> r.error == RowName(repo, rows[i]).error
    ensures r.Success? ==> AllIdsKnown(repo, rows[..i + 1])
    ensures r.Success? ==> NoNullIds(rows[..i + 1]) && r.value == GroupAll(NameEntries(repo, rows[..i + 1]))
  {
    var name := RowName(repo, rows[i]);
    if name.Failure? {
      return Failure(name.error);
    }
    RowNameStep(repo, rows, i);
    r := Success(Append(report, rows[i].0, name.value));
  }

  /** The service: the agency repository and the offer grouped from the valid trips. */
  datatype AgencyService = AgencyService(agencyRepo: AgencyRepo, offer: Offer) {

    /**
     * `find_agency_with_max_trips`: `[]` for an empty offer; otherwise every agency whose number of
     * trips is the largest, with that number, in offer order.
     */
    function FindAgencyWithMaxTrips(): (r: seq<(Option<Agency>, int)>)
      ensures r == [] <==> offer == []
      ensures forall e :: e in r <==> e in TripCounts(offer) && forall f :: f in TripCounts(offer) ==> f.1 <= e.1
      ensures IsSubsequence(r, TripCounts(offer))
    {
      TiedForMax(TripCounts(offer), (e: (Option<Agency>, int)) => e.1 as real)
    }

    /**
     * `find_agency_with_max_income`: the income of each agency, assigned in offer order, then every
     * agency whose income is the largest; `[]` for an empty offer. A trip without a price raises.
     */
    method FindAgencyWithMaxIncome() returns (r: Result<seq<(Option<Agency>, real)>>)
      requires Valid(offer)
      ensures r.Success? <==> AllGroupsPriced(offer)
      ensures r.Failure? ==> r.error == TypeError(PriceNotSetMessage)
      ensures r.Success? ==> (r.value == [] <==> offer == [])
      ensures r.Success? ==> forall e :: e in r.value <==> e in Incomes(offer) && forall f :: f in Incomes(offer) ==> f.1 <= e.1
      ensures r.Success? ==> IsSubsequence(r.value, Incomes(offer))
    {
      var incomes: Dict<Option<Agency>, real> := [];
      for i := 0 to |offer|
        invariant AllGroupsPriced(offer[..i])
        invariant incomes == Incomes(offer[..i])
      {
        var next := AddIncome(offer, i, incomes);
        if next.Failure? {
          assert !AllPriced(offer[i].1);
          return Failure(next.error);
        }
        incomes := next.value;
      }
      assert offer[..|offer|] == offer;
      r := Success(TiedForMax(incomes, (e: (Option<Agency>, real)) => e.1));
    }

    /**
     * `find_country_with_max_trips` over the fetched (destination, count) pairs: every pair whose
     * count is the largest, in input order; no pairs raise, as `max` has no default.
     */
    function FindCountryWithMaxTrips(tripsPerCountries: seq<(string, int)>): (r: Result<seq<(string, int)>>)
      ensures r.Failure? <==> tripsPerCountries == []
      ensures r.Failure? ==> r.error == ValueError(EmptyMaxMessage)
      ensures r.Success? ==> r.value != []
      ensures r.Success? ==> forall e :: e in r.value <==> e in tripsPerCountries && forall f :: f in tripsPerCountries ==> f.1 <= e.1
      ensures r.Success? ==> IsSubsequence(r.value, tripsPerCountries)
    {
      if tripsPerCountries == [] then Failure(ValueError(EmptyMaxMessage))
      else Success(TiedForMax(tripsPerCountries, (e: (string, int)) => e.1 as real))
    }

    /**
     * `mean_report_for_agencies`: for each agency in offer order, its mean price and the trip
     * closest to it, assigned under the agency's name, so a later agency of the same name replaces
     * an earlier one. The first agency whose line cannot be made raises; `None` has no name.
     */
    method MeanReportForAgencies() returns (r: Result<Dict<string, (real, Trip)>>)
      ensures r.Success? <==> AllEntriesOk(offer)
      ensures r.Failure? ==> exists i :: IsFirstFailingEntry(offer, i) && r.error == MeanEntry(offer[i].0, offer[i].1).error
      ensures r.Success? ==> r.value == PutAll([], MeanEntries(offer))
    {
      var report: Dict<string, (real, Trip)> := [];
      for i := 0 to |offer|
        invariant AllEntriesOk(offer[..i])
        invariant report == PutAll([], MeanEntries(offer[..i]))
      {
        var next := AddReportLine(offer, i, report);
        if next.Failure? {
          return Failure(next.error);
        }
        report := next.value;
      }
      assert offer[..|offer|] == offer;
      r := Success(report);
    }

    /**
     * `report_agencies_with_max_trips_for_each_country` over the fetched maxima rows, as written:
     * the first row whose agency id is NULL or not stored raises; otherwise, under each destination
     * in order of first appearance, the names of its rows' agencies in row order.
     */
    method ReportAgenciesWithMaxTripsForEachCountry(rows: seq<MaxRow>) returns (r: Result<Dict<string, seq<string>>>)
      ensures r.Success? <==> AllIdsKnown(agencyRepo, rows)
      ensures r.Success? ==> r == ReportOrUnknown(agencyRepo, rows)
      ensures r.Failure? ==>
        exists i :: 0 <= i < |rows| && AllIdsKnown(agencyRepo, rows[..i])
                 && RowName(agencyRepo, rows[i]).Failure? && r.error == RowName(agencyRepo, rows[i]).error
    {
      var report: Dict<string, seq<string>> := [];
      for i := 0 to |rows|
        invariant AllIdsKnown(agencyRepo, rows[..i])
        invariant NoNullIds(rows[..i]) && report == GroupAll(NameEntries(agencyRepo, rows[..i]))
      {
        var next := AddRowName(agencyRepo, rows, i, report);
        if next.Failure? {
          UnknownRowFails(agencyRepo, rows, i);
          return next;
        }
        report := next.value;
      }
      assert rows[..|rows|] == rows;
      r := Success(report);
    }

    /**
     * `report_only_selected_countries_trips`: the valid trips whose destination is one of the
     * repository's countries, in order and with repeats; a trip without a destination is dropped.
     */
    function ReportOnlySelectedCountriesTrips(validTrips: seq<Trip>, countries: CountryModel.CountryRepo): (r: seq<Trip>)
      ensures forall t :: t in r <==> t in validTrips && t.destination.Some? && t.destination.value in countries.GetCountries()
      ensures forall t :: t in r ==> multiset(r)[t] == multiset(validTrips)[t]
      ensures IsSubsequence(r, validTrips)
    {
      var selected := countries.GetCountries();
      var isSelected := (t: Trip) => t.destination.Some? && t.destination.value in selected;
      FilterMembers(validTrips, isSelected);
      FilterCount(validTrips, isSelected);
      FilterIsSubsequence(validTrips, isSelected);
      Filter(validTrips, isSelected)
    }

    /**
     * `report_trips_for_people_quantity` over all fetched trips: each trip added to the set of its
     * party size; sizes in order of first appearance, equal trips kept once.
     */
    method ReportTripsForPeopleQuantity(allTrips: seq<Trip>) returns (r: Dict<Option<int>, set<Trip>>)
      ensures r == PeopleGroups(allTrips)
      ensures Valid(r) && Keys(r) == Distinct(PeopleCounts(allTrips))
      ensures forall i :: 0 <= i < |r| ==> r[i].1 == TripsWithPeople(allTrips, r[i].0) && r[i].1 != {}
    {
      r := [];
      for i := 0 to |allTrips|
        invariant r == PeopleGroups(allTrips[..i])
      {
        var trip := allTrips[i];
        assert allTrips[..i + 1][..i] == allTrips[..i];
        r := Put(r, trip.numOfPeople, Get(r, trip.numOfPeople).GetOr({}) + {trip});
      }
      assert allTrips[..|allTrips|] == allTrips;
      PeopleGroupsEntries(allTrips);
    }

    /**
     * `report_max_price_for_quantity_report`: under each party size the trips priced at the group's
     * maximum, ranked by price per person, largest first. An empty group, an unset price among
     * several, or a party size that is unset or zero raises; once every group has a maximum, the
     * error is the division error of the first group whose price per person cannot be computed.
     */
    method ReportMaxPriceForQuantityReport(report: Dict<Option<int>, set<Trip>>) returns (r: Result<Dict<Option<int>, set<Trip>>>)
      requires Valid(report)
      ensures r.Success? <==> GroupsHaveMax(report) && AllKeysOk(TopGroups(report))
      ensures !GroupsHaveMax(report) ==> r.Failure? && exists i :: (IsFirstWithoutMax(report, i) &&
        if report[i].1 == {} then r.error == ValueError(EmptyMaxMessage) else r.error.TypeError?)
      ensures GroupsHaveMax(report) && r.Failure? ==>
        exists i :: IsFirstBadKey(TopGroups(report), i)
                 && r.error == PerPersonPrice(TopGroups(report)[i].0, GroupPrice(TopGroups(report)[i].1)).error
      ensures r.Success? ==> r.value == Unkeyed(SortDesc(Keyed(TopGroups(report))))
      ensures (exists i :: 0 <= i < |report| && (report[i].0.None? || report[i].0 == Some(0))) ==> r.Failure?
    {
      var grouped :- MaxPriceGroups(report);
      TopGroupsShared(report);
      r := RankByPricePerPerson(grouped);
      if r.Success? {
        forall i | 0 <= i < |report| ensures report[i].0.Some? && report[i].0 != Some(0) {
          assert TopGroups(report)[i].0 == report[i].0;
        }
      }
    }
  }
}
