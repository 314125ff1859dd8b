/**
  The dashboard logic of `src/App.tsx`: the filter over the loaded records, the
  city and structure lists offered by the filter bar, the key figures with the
  top cities, and the state that a newly loaded file replaces.
 */
module App {
  import opened Strings
  import opened Normalize
  import opened Types

  /** The status filter's three settings. */
  datatype StatusFilter = All | Active | Inactive

  /** `!c || c.trim() === ''`: nothing but whitespace (see `IsBlankMeansTrimmedEmpty`). */
  predicate IsBlank(s: string)
  {
    forall k :: 0 <= k < |s| ==> IsWhitespace(s[k])
  }

  lemma IsBlankMeansTrimmedEmpty(s: string)
    ensures IsBlank(s) <==> Trim(s) == ""
  {
  }

  // ---------------------------------------------------------------------------
  // uniqueCities, uniqueStructures
  // ---------------------------------------------------------------------------

  /** `.filter(c => c && c.trim() !== '')`. */
  function NonBlank(xs: seq<string>): (r: seq<string>)
    ensures forall y :: y in r <==> y in xs && !IsBlank(y)
  {
    if xs == [] then []
    else
      var last := xs[|xs| - 1];
      assert xs == xs[..|xs| - 1] + [last];
      NonBlank(xs[..|xs| - 1]) + (if IsBlank(last) then [] else [last])
  }

  /** Some record has city `c`. */
  predicate HasCity(rs: seq<Reseller>, c: string)
  {
    exists i :: 0 <= i < |rs| && rs[i].cidade == c
  }

  /** Some record has structure code `c`. */
  predicate HasStructure(rs: seq<Reseller>, c: string)
  {
    exists i :: 0 <= i < |rs| && rs[i].CodigoEstrutura == c
  }

  /** `allResellers.map(r => r.cidade)`. */
  function CityColumn(rs: seq<Reseller>): (cs: seq<string>)
    ensures forall c :: c in cs <==> HasCity(rs, c)
  {
    var cs := seq(|rs|, i requires 0 <= i < |rs| => rs[i].cidade);
    assert forall c :: c in cs <==> HasCity(rs, c) by {
      forall c | HasCity(rs, c) ensures c in cs {
        var i :| 0 <= i < |rs| && rs[i].cidade == c;
        assert cs[i] == c;
      }
    }
    cs
  }

  /** `allResellers.map(r => r.CodigoEstrutura)`. */
  function StructureColumn(rs: seq<Reseller>): (cs: seq<string>)
    ensures forall c :: c in cs <==> HasStructure(rs, c)
  {
    var cs := seq(|rs|, i requires 0 <= i < |rs| => rs[i].CodigoEstrutura);
    assert forall c :: c in cs <==> HasStructure(rs, c) by {
      forall c | HasStructure(rs, c) ensures c in cs {
        var i :| 0 <= i < |rs| && rs[i].CodigoEstrutura == c;
        assert cs[i] == c;
      }
    }
    cs
  }

  /** `uniqueCities`: each non-blank city of the records once, in ascending order. */
  function UniqueCities(rs: seq<Reseller>): (r: seq<string>)
    ensures StrictlySorted(r)
    ensures forall i, j :: 0 <= i < j < |r| ==> r[i] != r[j]
    ensures forall c :: c in r <==> !IsBlank(c) && HasCity(rs, c)
  {
    var r := SortedDistinct(NonBlank(CityColumn(rs)));
    StrictlySortedDistinct(r);
    r
  }

  /** `uniqueStructures`: each non-blank structure code of the records once, in ascending order. */
  function UniqueStructures(rs: seq<Reseller>): (r: seq<string>)
    ensures StrictlySorted(r)
    ensures forall i, j :: 0 <= i < j < |r| ==> r[i] != r[j]
    ensures forall c :: c in r <==> !IsBlank(c) && HasStructure(rs, c)
  {
    var r := SortedDistinct(NonBlank(StructureColumn(rs)));
    StrictlySortedDistinct(r);
    r
  }

  // ---------------------------------------------------------------------------
  // filteredResellers
  // ---------------------------------------------------------------------------

  /** The fields the search box looks in. */
  function SearchableFields(r: Reseller): seq<string>
  {
    [r.Nome, r.CodigoRevendedor, r.CPFCNPJ, r.TelCelular, r.TelResidencial, r.cidade, r.CodigoEstrutura]
  }

  /**
    The search step: some searchable field, normalised, contains the normalised term.
    A term that normalises to nothing (only blanks) matches every record.
   */
  function MatchesSearch(r: Reseller, searchTerm: string): (matches: bool)
    ensures NormalizeString(searchTerm) == "" ==> matches
  {
    var needle := NormalizeString(searchTerm);
    var name := NormalizeString(r.Nome);
    assert needle == "" ==> needle <= name[0..];
    exists field | field in SearchableFields(r) :: Contains(NormalizeString(field), needle)
  }

  /** Letter case in the search box does not matter. */
  lemma MatchesSearchIgnoresCase(r: Reseller, searchTerm: string)
    ensures MatchesSearch(r, Lower(searchTerm)) == MatchesSearch(r, searchTerm)
  {
    NormalizeStringIgnoresCase(searchTerm);
  }

  /** The callback given to `allResellers.filter`: status, then city, structure and search. */
  function Keeps(r: Reseller, searchTerm: string, statusFilter: StatusFilter, cityFilter: string, structureFilter: string)
    : (keep: bool)
    ensures statusFilter == All && cityFilter == "" && structureFilter == "" && NormalizeString(searchTerm) == "" ==> keep
    ensures keep && cityFilter != "" ==> r.cidade == cityFilter
    ensures keep && structureFilter != "" ==> r.CodigoEstrutura == structureFilter
  {
    && !(statusFilter == Active && !r.isActive)
    && !(statusFilter == Inactive && r.isActive)
    && !(cityFilter != "" && r.cidade != cityFilter)
    && !(structureFilter != "" && r.CodigoEstrutura != structureFilter)
    && !(searchTerm != "" && !MatchesSearch(r, searchTerm))
  }

  /** `filteredResellers`: the records the filters keep, in their original order. */
  function FilteredResellers(
    all: seq<Reseller>, searchTerm: string, statusFilter: StatusFilter, cityFilter: string, structureFilter: string)
    : (r: seq<Reseller>)
    ensures |r| <= |all|
    ensures forall x :: x in r <==> x in all && Keeps(x, searchTerm, statusFilter, cityFilter, structureFilter)
    ensures forall x :: multiset(r)[x] ==
                        if Keeps(x, searchTerm, statusFilter, cityFilter, structureFilter) then multiset(all)[x] else 0
  {
    if all == [] then []
    else
      var last := all[|all| - 1];
      assert all == all[..|all| - 1] + [last];
      assert multiset(all) == multiset(all[..|all| - 1]) + multiset{last};
      FilteredResellers(all[..|all| - 1], searchTerm, statusFilter, cityFilter, structureFilter)
        + (if Keeps(last, searchTerm, statusFilter, cityFilter, structureFilter) then [last] else [])
  }

  /** Filtering only deletes records: what is shown keeps the loaded order. */
  lemma {:induction false} FilteredPreservesOrder(
    all: seq<Reseller>, searchTerm: string, statusFilter: StatusFilter, cityFilter: string, structureFilter: string)
    ensures IsSubsequence(FilteredResellers(all, searchTerm, statusFilter, cityFilter, structureFilter), all)
  {
    if all != [] {
      var init, last := all[..|all| - 1], all[|all| - 1];
      var prev := FilteredResellers(init, searchTerm, statusFilter, cityFilter, structureFilter);
      var r := FilteredResellers(all, searchTerm, statusFilter, cityFilter, structureFilter);
      FilteredPreservesOrder(init, searchTerm, statusFilter, cityFilter, structureFilter);
      if Keeps(last, searchTerm, statusFilter, cityFilter, structureFilter) {
        assert r[..|r| - 1] == prev && all[..|all| - 1] == init;
      } else {
        assert r == prev;
        SubsequenceExtend(prev, init, last);
        assert init + [last] == all;
      }
    }
  }

  /** With every filter at its reset value, all records are shown. */
  lemma {:induction false} FilteredWithoutFilters(all: seq<Reseller>)
    ensures FilteredResellers(all, "", All, "", "") == all
  {
    if all != [] {
      var init, last := all[..|all| - 1], all[|all| - 1];
      assert init + [last] == all;
      FilteredWithoutFilters(init);
      KeptWithoutFilters(last);
      FilteredSnoc(all, "", All, "", "");
    }
  }

  /** The filter's last step: the last record is appended when it is kept. */
  lemma FilteredSnoc(
    all: seq<Reseller>, searchTerm: string, statusFilter: StatusFilter, cityFilter: string, structureFilter: string)
    requires all != []
    ensures var last := all[|all| - 1];
      FilteredResellers(all, searchTerm, statusFilter, cityFilter, structureFilter)
      == FilteredResellers(all[..|all| - 1], searchTerm, statusFilter, cityFilter, structureFilter)
         + (if Keeps(last, searchTerm, statusFilter, cityFilter, structureFilter) then [last] else [])
  {
  }

  /** No record is rejected by filters at their reset values. */
  lemma KeptWithoutFilters(x: Reseller)
    ensures Keeps(x, "", All, "", "")
  {
  }

  /**
    What each filter guarantees of the records it keeps: the status filter their
    `isActive`, the city and structure filters exact equality, and a search term a
    match in some searchable field after normalisation.
   */
  lemma FilteredGuarantees(
    all: seq<Reseller>, searchTerm: string, statusFilter: StatusFilter, cityFilter: string, structureFilter: string)
    ensures var r := FilteredResellers(all, searchTerm, statusFilter, cityFilter, structureFilter);
      && (statusFilter == Active ==> forall x :: x in r ==> x.isActive)
      && (statusFilter == Inactive ==> forall x :: x in r ==> !x.isActive)
      && (cityFilter != "" ==> forall x :: x in r ==> x.cidade == cityFilter)
      && (structureFilter != "" ==> forall x :: x in r ==> x.CodigoEstrutura == structureFilter)
      && (searchTerm != "" ==> forall x :: x in r ==>
            exists field :: field in SearchableFields(x) && Contains(NormalizeString(field), NormalizeString(searchTerm)))
  {
  }

  // ---------------------------------------------------------------------------
  // stats
  // ---------------------------------------------------------------------------

  /** `allResellers.filter(r => r.isActive).length`. */
  function CountActive(rs: seq<Reseller>): (n: nat)
    ensures n <= |rs|
  {
    if rs == [] then 0
    else CountActive(rs[..|rs| - 1]) + (if rs[|rs| - 1].isActive then 1 else 0)
  }

  /** The number of records that are not active. */
  function CountInactive(rs: seq<Reseller>): nat
  {
    if rs == [] then 0
    else CountInactive(rs[..|rs| - 1]) + (if rs[|rs| - 1].isActive then 0 else 1)
  }

  /** `inactive = total - active` counts exactly the records that are not active. */
  lemma {:induction false} ActivePlusInactive(rs: seq<Reseller>)
    ensures CountActive(rs) + CountInactive(rs) == |rs|
  {
    if rs != [] {
      ActivePlusInactive(rs[..|rs| - 1]);
    }
  }

  /** The number of records whose city is `c`. */
  function CityCountOf(rs: seq<Reseller>, c: string): nat
  {
    if rs == [] then 0
    else CityCountOf(rs[..|rs| - 1], c) + (if rs[|rs| - 1].cidade == c then 1 else 0)
  }

  lemma {:induction false} CityCountPositive(rs: seq<Reseller>, c: string, i: nat)
    requires i < |rs| && rs[i].cidade == c
    ensures CityCountOf(rs, c) > 0
  {
    if i < |rs| - 1 {
      CityCountPositive(rs[..|rs| - 1], c, i);
    }
  }

  lemma {:induction false} CityCountZero(rs: seq<Reseller>, c: string)
    requires forall i :: 0 <= i < |rs| ==> rs[i].cidade != c
    ensures CityCountOf(rs, c) == 0
  {
    if rs != [] {
      CityCountZero(rs[..|rs| - 1], c);
    }
  }

  predicate Distinct(xs: seq<string>)
  {
    forall i, j :: 0 <= i < j < |xs| ==> xs[i] != xs[j]
  }

  /** Appending a record adds its city to the cities present. */
  lemma HasCitySnoc(rs: seq<Reseller>)
    requires rs != []
    ensures forall c :: HasCity(rs, c) <==> HasCity(rs[..|rs| - 1], c) || rs[|rs| - 1].cidade == c
  {
    var init := rs[..|rs| - 1];
    forall c ensures HasCity(rs, c) <==> HasCity(init, c) || rs[|rs| - 1].cidade == c {
      if HasCity(init, c) {
        var i :| 0 <= i < |init| && init[i].cidade == c;
        assert rs[i].cidade == c;
      }
      if HasCity(rs, c) && rs[|rs| - 1].cidade != c {
        var i :| 0 <= i < |rs| && rs[i].cidade == c;
        assert init[i].cidade == c;
      }
    }
  }

  /**
    The keys of the city dictionary in the order they are first created: each
    non-blank city once, in order of first occurrence.
   */
  function Cities(rs: seq<Reseller>): (cs: seq<string>)
    ensures Distinct(cs)
    ensures forall c :: c in cs <==> !IsBlank(c) && HasCity(rs, c)
  {
    if rs == [] then []
    else
      var c := rs[|rs| - 1].cidade;
      var prev := Cities(rs[..|rs| - 1]);
      HasCitySnoc(rs);
      if IsBlank(c) || c in prev then prev else prev + [c]
  }

  /** What one more record does to the city dictionary's keys and counts. */
  lemma CityStep(rs: seq<Reseller>, i: nat)
    requires i < |rs|
    ensures var c := rs[i].cidade;
      Cities(rs[..i + 1]) == if IsBlank(c) || c in Cities(rs[..i]) then Cities(rs[..i]) else Cities(rs[..i]) + [c]
    ensures forall d :: CityCountOf(rs[..i + 1], d) == CityCountOf(rs[..i], d) + (if rs[i].cidade == d then 1 else 0)
  {
    assert rs[..i + 1][..i] == rs[..i];
    CityCountStep(rs, i);
  }

  /** The dictionary after counting one more record's city. */
  function Tally(counts: map<string, nat>, city: string): map<string, nat>
  {
    if IsBlank(city) then counts else counts[city := (if city in counts then counts[city] else 0) + 1]
  }

  /** Counting one more record keeps the dictionary's keys the cities seen so far. */
  lemma TallyKeys(rs: seq<Reseller>, i: nat, counts: map<string, nat>)
    requires i < |rs|
    requires forall c :: c in counts <==> c in Cities(rs[..i])
    ensures forall c :: c in Tally(counts, rs[i].cidade) <==> c in Cities(rs[..i + 1])
  {
    CityStep(rs, i);
  }

  /** Counting one more record keeps every count in the dictionary exact. */
  lemma TallyCounts(rs: seq<Reseller>, i: nat, counts: map<string, nat>)
    requires i < |rs|
    requires forall c :: c in counts <==> c in Cities(rs[..i])
    requires forall c :: c in counts ==> counts[c] == CityCountOf(rs[..i], c)
    ensures var next := Tally(counts, rs[i].cidade);
      forall c :: c in next ==> next[c] == CityCountOf(rs[..i + 1], c)
  {
    var city := rs[i].cidade;
    var next := Tally(counts, city);
    CityCountStep(rs, i);
    forall c | c in next ensures next[c] == CityCountOf(rs[..i + 1], c) {
      if c == city && city !in counts {
        assert !HasCity(rs[..i], city);
        CityCountZero(rs[..i], city);
      }
    }
  }

  /** One more record adds one to the count of its own city and to no other. */
  lemma CityCountStep(rs: seq<Reseller>, i: nat)
    requires i < |rs|
    ensures forall d :: CityCountOf(rs[..i + 1], d) == CityCountOf(rs[..i], d) + (if rs[i].cidade == d then 1 else 0)
  {
    assert rs[..i + 1][..i] == rs[..i];
  }

  /** The dictionary's keys in creation order after counting one more record's city. */
  function Register(order: seq<string>, counts: map<string, nat>, city: string): seq<string>
  {
    if !IsBlank(city) && city !in counts then order + [city] else order
  }

  /** A non-blank city is counted: registered if new, and its count incremented. */
  lemma TallyCity(order: seq<string>, counts: map<string, nat>, city: string)
    requires !IsBlank(city)
    ensures Register(order, counts, city) == if city in counts then order else order + [city]
    ensures Tally(counts, city) == counts[city := (if city in counts then counts[city] else 0) + 1]
  {
  }

  /**
    The state of the counting loop after the records `rs`: `order` lists the cities
    met, in first-seen order, `counts` has exactly those keys, and each count is exact.
   */
  ghost predicate Counted(rs: seq<Reseller>, order: seq<string>, counts: map<string, nat>)
  {
    && order == Cities(rs)
    && (forall c :: c in counts <==> c in order)
    && (forall c :: c in counts ==> counts[c] == CityCountOf(rs, c))
  }

  /** Counting one more record keeps the loop's state exact. */
  lemma CountedStep(rs: seq<Reseller>, i: nat, order: seq<string>, counts: map<string, nat>)
    requires i < |rs| && Counted(rs[..i], order, counts)
    ensures Counted(rs[..i + 1], Register(order, counts, rs[i].cidade), Tally(counts, rs[i].cidade))
  {
    CityStep(rs, i);
    TallyKeys(rs, i, counts);
    TallyCounts(rs, i, counts);
  }

  /** The dictionary's entries, in key order, are the ranking entries of the records. */
  lemma DictionaryEntries(rs: seq<Reseller>, order: seq<string>, counts: map<string, nat>, es: seq<CityCount>)
    requires order == Cities(rs)
    requires forall c :: c in counts <==> c in order
    requires forall c :: c in counts ==> counts[c] == CityCountOf(rs, c)
    requires |es| == |order|
    requires forall k :: 0 <= k < |order| ==> order[k] in counts && es[k] == CityCount(order[k], counts[order[k]])
    ensures es == CityEntries(rs)
  {
  }

  /** One ranking entry per city of the dictionary, in key order. */
  function CityEntries(rs: seq<Reseller>): (es: seq<CityCount>)
    ensures |es| == |Cities(rs)|
    ensures forall k :: 0 <= k < |es| ==> es[k] == CityCount(Cities(rs)[k], CityCountOf(rs, Cities(rs)[k]))
  {
    var cs := Cities(rs);
    seq(|cs|, k requires 0 <= k < |cs| => CityCount(cs[k], CityCountOf(rs, cs[k])))
  }

  predicate NonIncreasing(es: seq<CityCount>)
  {
    forall i, j :: 0 <= i < j < |es| ==> es[i].count >= es[j].count
  }

  lemma NonIncreasingTail(s: seq<CityCount>)
    requires s != [] && NonIncreasing(s)
    ensures NonIncreasing(s[1..])
  {
    forall i, j | 0 <= i < j < |s| - 1 ensures s[1..][i].count >= s[1..][j].count {
      assert s[1..][i] == s[i + 1] && s[1..][j] == s[j + 1];
    }
  }

  /** A sequence that holds `x` and the tail of `s` has no count above `s[0]`'s. */
  lemma BoundedByHead(s: seq<CityCount>, x: CityCount, rest: seq<CityCount>)
    requires s != [] && NonIncreasing(s) && x.count <= s[0].count
    requires multiset(rest) == multiset(s[1..]) + multiset{x}
    ensures forall y :: y in rest ==> y.count <= s[0].count
  {
    forall y | y in rest ensures y.count <= s[0].count {
      assert y in multiset(rest);
      if y != x {
        assert y in multiset(s[1..]);
        var j :| 0 <= j < |s[1..]| && s[1..][j] == y;
        assert s[j + 1] == y;
      }
    }
  }

  /** Insertion after every entry with at least the same count (keeps ties in arrival order). */
  function InsertByCount(s: seq<CityCount>, x: CityCount): (r: seq<CityCount>)
    requires NonIncreasing(s)
    ensures NonIncreasing(r)
    ensures multiset(r) == multiset(s) + multiset{x}
  {
    if s == [] then [x]
    else if s[0].count >= x.count then
      NonIncreasingTail(s);
      var rest := InsertByCount(s[1..], x);
      BoundedByHead(s, x, rest);
      assert s == [s[0]] + s[1..];
      [s[0]] + rest
    else
      [x] + s
  }

  /**
    `.sort((a, b) => b.count - a.count)`: the entries by non-increasing count; the
    sort is stable, so equal counts keep their order.
   */
  function SortByCount(es: seq<CityCount>): (r: seq<CityCount>)
    ensures NonIncreasing(r)
    ensures multiset(r) == multiset(es)
  {
    if es == [] then []
    else
      assert es == es[..|es| - 1] + [es[|es| - 1]];
      InsertByCount(SortByCount(es[..|es| - 1]), es[|es| - 1])
  }

  /** `.slice(0, 3)`. */
  function TopThree(es: seq<CityCount>): (r: seq<CityCount>)
    ensures r <= es
    ensures |r| == if |es| < 3 then |es| else 3
  {
    if |es| <= 3 then es else es[..3]
  }

  /** The first three entries of the city dictionary, ranked by count. */
  function TopCities(rs: seq<Reseller>): (top: seq<CityCount>)
    ensures |top| <= 3
    ensures forall i :: 0 <= i < |top| ==> top[i] in CityEntries(rs)
  {
    TopThreeFromEntries(CityEntries(rs));
    TopThree(SortByCount(CityEntries(rs)))
  }

  /**
    `stats`: the total is the number of records, `active` counts the active ones and
    `inactive` the others, so the two add up to the total; `topCities` ranks the cities.
   */
  function StatsOf(rs: seq<Reseller>): (s: DashboardStats)
    ensures s.total == |rs|
    ensures s.active == CountActive(rs)
    ensures s.inactive == CountInactive(rs)
  {
    var active := CountActive(rs);
    ActivePlusInactive(rs);
    DashboardStats(|rs|, active, |rs| - active, TopCities(rs))
  }

  /** The first three entries of a ranking are among the entries ranked. */
  lemma TopThreeFromEntries(es: seq<CityCount>)
    ensures var top := TopThree(SortByCount(es));
      && |top| == (if |es| < 3 then |es| else 3)
      && forall i :: 0 <= i < |top| ==> top[i] in es
  {
    var sorted := SortByCount(es);
    assert |sorted| == |es| by {
      assert |multiset(sorted)| == |multiset(es)|;
    }
    forall i | 0 <= i < |TopThree(sorted)| ensures TopThree(sorted)[i] in es {
      assert TopThree(sorted)[i] == sorted[i];
      assert sorted[i] in multiset(es);
    }
  }

  /** An entry the first three leave out counts no more than any of them. */
  lemma TopThreeDominates(es: seq<CityCount>, e: CityCount)
    requires e in es
    requires forall i :: 0 <= i < |TopThree(SortByCount(es))| ==> TopThree(SortByCount(es))[i] != e
    ensures forall i :: 0 <= i < |TopThree(SortByCount(es))| ==> e.count <= TopThree(SortByCount(es))[i].count
  {
    var sorted := SortByCount(es);
    var top := TopThree(sorted);
    assert e in multiset(sorted);
    var j :| 0 <= j < |sorted| && sorted[j] == e;
    assert forall i :: 0 <= i < |top| ==> top[i] == sorted[i];
    assert j >= |top|;
  }

  /** An entry of the city dictionary is a non-blank city with its exact, positive, count. */
  lemma CityEntryMeaning(rs: seq<Reseller>, e: CityCount)
    requires e in CityEntries(rs)
    ensures !IsBlank(e.city) && e.count == CityCountOf(rs, e.city) && e.count > 0
  {
    var cs := Cities(rs);
    var k :| 0 <= k < |CityEntries(rs)| && CityEntries(rs)[k] == e;
    assert cs[k] in cs;
    var j :| 0 <= j < |rs| && rs[j].cidade == cs[k];
    CityCountPositive(rs, cs[k], j);
  }

  /** No city has two entries. */
  predicate DistinctCities(es: seq<CityCount>)
  {
    forall i, j :: 0 <= i < j < |es| ==> es[i].city != es[j].city
  }

  /** The dictionary has one entry per city. */
  lemma CityEntriesDistinct(rs: seq<Reseller>)
    ensures DistinctCities(CityEntries(rs))
  {
    var cs, es := Cities(rs), CityEntries(rs);
    forall i, j | 0 <= i < j < |es| ensures es[i].city != es[j].city {
      assert es[i].city == cs[i] && es[j].city == cs[j];
    }
  }

  /** An entry that occurs at two positions is counted at least twice. */
  lemma OccursTwice(a: seq<CityCount>, i: nat, j: nat)
    requires i < j < |a| && a[i] == a[j]
    ensures multiset(a)[a[i]] >= 2
  {
    assert a == a[..j] + [a[j]] + a[j + 1..];
    assert a[..j][i] == a[i];
    assert a[i] in multiset(a[..j]);
  }

  /** Entries with distinct cities are each there once. */
  lemma {:induction false} DistinctCitiesOnce(es: seq<CityCount>)
    requires DistinctCities(es)
    ensures forall x :: multiset(es)[x] <= 1
  {
    if es != [] {
      var init, last := es[..|es| - 1], es[|es| - 1];
      assert DistinctCities(init) by {
        forall i, j | 0 <= i < j < |init| ensures init[i].city != init[j].city {
          assert init[i] == es[i] && init[j] == es[j];
        }
      }
      DistinctCitiesOnce(init);
      assert last !in init by {
        forall k | 0 <= k < |init| ensures init[k] != last {
          assert init[k] == es[k];
        }
      }
      assert es == init + [last];
      assert multiset(es) == multiset(init) + multiset{last};
    }
  }

  /** A reordering of entries with distinct cities has distinct cities. */
  lemma ReorderedDistinctCities(a: seq<CityCount>, b: seq<CityCount>)
    requires multiset(a) == multiset(b) && DistinctCities(b)
    ensures DistinctCities(a)
  {
    forall i, j | 0 <= i < j < |a| ensures a[i].city != a[j].city {
      if a[i].city == a[j].city {
        assert a[i] in multiset(b) && a[j] in multiset(b);
        var p :| 0 <= p < |b| && b[p] == a[i];
        var q :| 0 <= q < |b| && b[q] == a[j];
        assert p == q;
        OccursTwice(a, i, j);
        DistinctCitiesOnce(b);
        assert false;
      }
    }
  }

  /** No city is listed twice among the top cities. */
  lemma TopCitiesDistinct(rs: seq<Reseller>)
    ensures DistinctCities(TopCities(rs))
  {
    var es := CityEntries(rs);
    var sorted := SortByCount(es);
    CityEntriesDistinct(rs);
    ReorderedDistinctCities(sorted, es);
    var top := TopThree(sorted);
    forall i, j | 0 <= i < j < |top| ensures top[i].city != top[j].city {
      assert top[i] == sorted[i] && top[j] == sorted[j];
    }
  }

  /** Each listed city is a non-blank city with its exact, positive, number of records, listed once. */
  lemma TopCitiesCounts(rs: seq<Reseller>)
    ensures var top := TopCities(rs);
      && |top| == (if |Cities(rs)| < 3 then |Cities(rs)| else 3)
      && (forall i :: 0 <= i < |top| ==>
            !IsBlank(top[i].city) && top[i].count == CityCountOf(rs, top[i].city) && top[i].count > 0)
      && (forall i, j :: 0 <= i < j < |top| ==> top[i].city != top[j].city)
  {
    var top := TopCities(rs);
    TopCitiesDistinct(rs);
    TopThreeFromEntries(CityEntries(rs));
    forall i | 0 <= i < |top|
      ensures !IsBlank(top[i].city) && top[i].count == CityCountOf(rs, top[i].city) && top[i].count > 0
    {
      CityEntryMeaning(rs, top[i]);
    }
  }

  /** No city left out of the ranking has more records than a city listed. */
  lemma TopCitiesLead(rs: seq<Reseller>, c: string)
    requires !IsBlank(c)
    requires forall i :: 0 <= i < |TopCities(rs)| ==> TopCities(rs)[i].city != c
    ensures forall i :: 0 <= i < |TopCities(rs)| ==> CityCountOf(rs, c) <= TopCities(rs)[i].count
  {
    var cs, es := Cities(rs), CityEntries(rs);
    var top := TopCities(rs);
    if c in cs {
      var k :| 0 <= k < |cs| && cs[k] == c;
      var e := es[k];
      assert e.city == c && e.count == CityCountOf(rs, c);
      assert top == TopThree(SortByCount(es));
      assert forall i :: 0 <= i < |top| ==> top[i] != e;
      TopThreeDominates(es, e);
    } else {
      assert !HasCity(rs, c);
      CityCountZero(rs, c);
    }
  }

  lemma TopThreeNonIncreasing(es: seq<CityCount>)
    requires NonIncreasing(es)
    ensures NonIncreasing(TopThree(es))
  {
  }

  /**
    The top cities: at most three (fewer only when there are fewer cities), by
    non-increasing count, each a non-blank city with its exact number of records,
    no city twice;
    and no city left out has more records than any city listed.
   */
  lemma TopCitiesMeaning(rs: seq<Reseller>)
    ensures var top, cs := TopCities(rs), Cities(rs);
      && |top| == (if |cs| < 3 then |cs| else 3)
      && NonIncreasing(top)
      && (forall i :: 0 <= i < |top| ==>
            !IsBlank(top[i].city) && top[i].count == CityCountOf(rs, top[i].city) && top[i].count > 0)
      && (forall i, j :: 0 <= i < j < |top| ==> top[i].city != top[j].city)
      && (forall c :: !IsBlank(c) && (forall i :: 0 <= i < |top| ==> top[i].city != c) ==>
            forall i :: 0 <= i < |top| ==> CityCountOf(rs, c) <= top[i].count)
  {
    TopCitiesCounts(rs);
    TopThreeNonIncreasing(SortByCount(CityEntries(rs)));
    forall c | !IsBlank(c) && (forall i :: 0 <= i < |TopCities(rs)| ==> TopCities(rs)[i].city != c)
      ensures forall i :: 0 <= i < |TopCities(rs)| ==> CityCountOf(rs, c) <= TopCities(rs)[i].count
    {
      TopCitiesLead(rs, c);
    }
  }

  // ---------------------------------------------------------------------------
  // The component's state
  // ---------------------------------------------------------------------------

  /** The records on display and the four filter settings. */
  class Dashboard {
    var allResellers: seq<Reseller>
    var searchTerm: string
    var statusFilter: StatusFilter
    var cityFilter: string
    var structureFilter: string

    /** The initial state: no records, no filter. */
    constructor ()
      ensures allResellers == [] && searchTerm == "" && statusFilter == All
      ensures cityFilter == "" && structureFilter == ""
    {
      allResellers := [];
      searchTerm := "";
      statusFilter := All;
      cityFilter := "";
      structureFilter := "";
    }

    /**
      `handleDataLoaded`: the loaded records replace the previous ones (nothing is
      merged) and every filter is reset, so exactly the loaded records are shown.
     */
    method HandleDataLoaded(data: seq<Reseller>)
      modifies this
      ensures allResellers == data
      ensures searchTerm == "" && statusFilter == All && cityFilter == "" && structureFilter == ""
      ensures FilteredResellers(allResellers, searchTerm, statusFilter, cityFilter, structureFilter) == data
    {
      allResellers := data;
      searchTerm := "";
      statusFilter := All;
      cityFilter := "";
      structureFilter := "";
      FilteredWithoutFilters(data);
    }

    /**
      `stats`: counts the records per non-blank city in a dictionary, one increment
      per record, then ranks the dictionary's entries.
     */
    method Stats() returns (s: DashboardStats)
      ensures s == StatsOf(allResellers)
    {
      var rs := allResellers;
      var total := |rs|;
      var active := CountActive(rs);
      var inactive := total - active;

      var cityCount: map<string, nat> := map[];
      var cityOrder: seq<string> := [];  // the dictionary's keys, in creation order
      for i := 0 to |rs|
        invariant Counted(rs[..i], cityOrder, cityCount)
      {
        var city := rs[i].cidade;
        CountedStep(rs, i, cityOrder, cityCount);
        ghost var nextOrder, nextCount := Register(cityOrder, cityCount, city), Tally(cityCount, city);
        if !IsBlank(city) {
          TallyCity(cityOrder, cityCount, city);
          if city !in cityCount {
            cityOrder := cityOrder + [city];
          }
          cityCount := cityCount[city := (if city in cityCount then cityCount[city] else 0) + 1];
        }
        assert cityOrder == nextOrder && cityCount == nextCount;
      }
      assert rs[..|rs|] == rs;

      var entries := seq(|cityOrder|, k requires 0 <= k < |cityOrder| =>
        CityCount(cityOrder[k], cityCount[cityOrder[k]]));
      DictionaryEntries(rs, cityOrder, cityCount, entries);
      s := DashboardStats(total, active, inactive, TopThree(SortByCount(entries)));
    }
  }
}
