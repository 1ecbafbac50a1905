/**
 * The company search of the `reviews` handler: a case-insensitive substring
 * match of the query against every company name, answered as "not found",
 * a list of several companies to choose from, or the one company found with
 * its published reviews.
 */
module CompanySearch {
  import opened Wrappers
  import opened Text
  import opened Schema
  import opened Sequences
  import opened Tables

  /** `searched_name in name.lower()` with `searched_name = query.lower()`. */
  predicate NameMatch(name: string, query: string)
  {
    Contains(Lower(name), Lower(query))
  }

  function NameMatches(query: string): string -> bool
  {
    (n: string) => NameMatch(n, query)
  }

  function CompanyMatches(query: string): Company -> bool
  {
    (c: Company) => NameMatch(c.name, query)
  }

  /** The names the search loop collects, in table order. */
  function Matches(names: seq<string>, query: string): seq<string>
  {
    Filter(names, NameMatches(query))
  }

  /** The companies whose names match, in table order. */
  function MatchingCompanies(cs: seq<Company>, query: string): seq<Company>
  {
    Filter(cs, CompanyMatches(query))
  }

  /** The rows the several-matches branch collects: for each matched name, the companies with that name. */
  function Gather(cs: seq<Company>, names: seq<string>): seq<Company>
  {
    if names == [] then []
    else Gather(cs, names[..|names| - 1]) + CompaniesNamed(cs, names[|names| - 1])
  }

  function ShownFor(companyId: int, us: seq<User>): Review -> bool
  {
    (r: Review) => r.companyId == companyId && UserExists(us, r.userId)
  }

  /**
   * `SELECT * FROM reviews JOIN users ON reviews.user_id = users.id WHERE company_id = ?`:
   * the company's published reviews whose author row still exists.
   */
  function CompanyReviews(rs: seq<Review>, us: seq<User>, companyId: int): (shown: seq<Review>)
    ensures |shown| <= |rs|
    ensures forall r :: r in shown <==> r in rs && r.companyId == companyId && UserExists(us, r.userId)
  {
    Filter(rs, ShownFor(companyId, us))
  }

  datatype SearchResult =
    | EmptyQuery
    | NotFound
    | Several(companies: seq<Company>)
    | Single(company: Company, reviews: seq<Review>)

  /** `company_names`: the loop that copies every company name out of the query result. */
  method CollectNames(cs: seq<Company>) returns (names: seq<string>)
    ensures names == Names(cs)
  {
    names := [];
    for i := 0 to |cs|
      invariant names == Names(cs[..i])
    {
      assert Names(cs[..i + 1]) == Names(cs[..i]) + [cs[i].name];
      names := names + [cs[i].name];
    }
    assert cs[..|cs|] == cs;
  }

  /**
   * The search loop: every name containing the lower-cased query is appended to
   * `found`, counted, and remembered as the latest hit.
   */
  method MatchLoop(names: seq<string>, query: string)
    returns (weHaveIt: bool, flag: string, count: nat, found: seq<string>)
    ensures found == Matches(names, query)
    ensures count == |found| && (weHaveIt <==> count > 0)
    ensures count > 0 ==> flag == found[count - 1]
  {
    weHaveIt, flag, count, found := false, "", 0, [];
    var searched := Lower(query);
    var i := 0;
    while i < |names|
      invariant 0 <= i <= |names|
      invariant found == Matches(names[..i], query)
      invariant count == |found|
      invariant weHaveIt <==> count > 0
      invariant count > 0 ==> flag == found[count - 1]
    {
      MatchesStep(names, i, query);
      if Contains(Lower(names[i]), searched) {
        weHaveIt := true;
        flag := names[i];
        found := found + [names[i]];
        count := count + 1;
      }
      i := i + 1;
    }
    assert names[..i] == names;
  }

  /** One more name examined: it is collected after the earlier ones exactly when it matches. */
  lemma MatchesStep(names: seq<string>, i: int, query: string)
    requires 0 <= i < |names|
    ensures Matches(names[..i + 1], query)
            == Matches(names[..i], query) + (if NameMatch(names[i], query) then [names[i]] else [])
  {
    assert names[..i + 1] == names[..i] + [names[i]];
    FilterAppend(names[..i], [names[i]], NameMatches(query));
    assert NameMatches(query)(names[i]) == NameMatch(names[i], query);
  }

  /** The several-matches loop: the company rows for each matched name, extended in turn. */
  method GatherLoop(cs: seq<Company>, found: seq<string>) returns (company: seq<Company>)
    ensures company == Gather(cs, found)
  {
    company := [];
    var k := 0;
    while k < |found|
      invariant 0 <= k <= |found|
      invariant company == Gather(cs, found[..k])
    {
      assert found[..k + 1][..k] == found[..k];
      company := company + CompaniesNamed(cs, found[k]);
      k := k + 1;
    }
    assert found[..k] == found;
  }

  /** The POST branch of the `reviews` handler. */
  method Search(cs: seq<Company>, rs: seq<Review>, us: seq<User>, query: Field) returns (result: SearchResult)
    ensures !Filled(query) <==> result == EmptyQuery
    ensures Filled(query) ==>
              var found := Matches(Names(cs), query.value);
              && (found == [] <==> result == NotFound)
              && (|found| > 1 <==> result.Several?)
              && (|found| > 1 ==> result.companies == Gather(cs, found))
              && (|found| == 1 ==>
                    && result.Single? && CompaniesNamed(cs, found[0]) != []
                    && result.company == CompaniesNamed(cs, found[0])[0]
                    && result.reviews == CompanyReviews(rs, us, result.company.id))
  {
    var names := CollectNames(cs);
    if !Filled(query) {
      return EmptyQuery;
    }
    var weHaveIt, flag, count, found := MatchLoop(names, query.value);
    if !weHaveIt {
      return NotFound;
    }
    if count > 1 {
      var company := GatherLoop(cs, found);
      return Several(company);
    }
    assert found[0] in found;
    NamedExists(cs, flag);
    var rows := CompaniesNamed(cs, flag);
    var single := rows[0];
    result := Single(single, CompanyReviews(rs, us, single.id));
  }

  // ---------------------------------------------------------------- properties of the match

  /** A name is collected exactly when the lower-cased query occurs somewhere in the lower-cased name. */
  lemma MatchesExactly(names: seq<string>, query: string, n: string)
    ensures n in Matches(names, query) <==> n in names && exists i :: Occurs(Lower(query), Lower(n), i)
  {
    ContainsIff(Lower(n), Lower(query));
    assert Matches(names, query) == Filter(names, NameMatches(query));
    assert NameMatches(query)(n) == NameMatch(n, query);
  }

  /** Queries that differ only in letter case find the same names. */
  lemma CaseInsensitive(names: seq<string>, q1: string, q2: string)
    requires Lower(q1) == Lower(q2)
    ensures Matches(names, q1) == Matches(names, q2)
  {
    FilterSame(names, NameMatches(q1), NameMatches(q2));
  }

  /** The matched names are the names of the matching companies, in table order. */
  lemma {:induction false} MatchesNames(cs: seq<Company>, query: string)
    ensures Matches(Names(cs), query) == Names(MatchingCompanies(cs, query))
  {
    if cs != [] {
      var head: seq<Company> := [cs[0]];
      assert cs == head + cs[1..];
      NamesAppend(head, cs[1..]);
      FilterAppend(Names(head), Names(cs[1..]), NameMatches(query));
      FilterAppend(head, cs[1..], CompanyMatches(query));
      MatchesNames(cs[1..], query);
      NamesAppend(MatchingCompanies(head, query), MatchingCompanies(cs[1..], query));
    }
  }

  lemma {:induction false} GatherAppend(cs: seq<Company>, a: seq<string>, b: seq<string>)
    ensures Gather(cs, a + b) == Gather(cs, a) + Gather(cs, b)
    decreases |b|
  {
    if b == [] {
      assert a + b == a;
    } else {
      var init := b[..|b| - 1];
      assert (a + b)[..|a + b| - 1] == a + init;
      GatherAppend(cs, a, init);
    }
  }

  /** One company on its own: it is gathered back exactly when its name matches. */
  lemma GatherOne(all: seq<Company>, c: Company, query: string)
    requires CompaniesNamed(all, c.name) == [c]
    ensures Gather(all, Matches(Names([c]), query)) == MatchingCompanies([c], query)
  {
    assert Names([c]) == [c.name];
    assert Filter([c.name], NameMatches(query)) == (if NameMatch(c.name, query) then [c.name] else []) + Filter([], NameMatches(query));
    assert Filter([c], CompanyMatches(query)) == (if NameMatch(c.name, query) then [c] else []) + Filter([], CompanyMatches(query));
    if NameMatch(c.name, query) {
      assert Matches(Names([c]), query) == [c.name];
      assert [c.name][..0] == [];
      assert Gather(all, [c.name]) == Gather(all, []) + CompaniesNamed(all, c.name);
    } else {
      assert Matches(Names([c]), query) == [];
    }
  }

  lemma {:induction false} GatherOver(all: seq<Company>, part: seq<Company>, query: string)
    requires forall c :: c in part ==> CompaniesNamed(all, c.name) == [c]
    ensures Gather(all, Matches(Names(part), query)) == MatchingCompanies(part, query)
    decreases |part|
  {
    if part != [] {
      var init := part[..|part| - 1];
      var last := part[|part| - 1];
      assert part == init + [last];
      assert forall c :: c in init ==> c in part;
      NamesAppend(init, [last]);
      FilterAppend(Names(init), Names([last]), NameMatches(query));
      FilterAppend(init, [last], CompanyMatches(query));
      GatherOver(all, init, query);
      GatherOne(all, last, query);
      GatherAppend(all, Matches(Names(init), query), Matches(Names([last]), query));
    }
  }

  /**
   * With unique company names (the table's UNIQUE constraint), the rows the
   * several-matches branch collects are exactly the matching companies, in
   * table order.
   */
  lemma SeveralAreMatching(cs: seq<Company>, query: string)
    requires DistinctBy(cs, NameKey)
    ensures Gather(cs, Matches(Names(cs), query)) == MatchingCompanies(cs, query)
  {
    forall c | c in cs ensures CompaniesNamed(cs, c.name) == [c] {
      OnlyCompanyNamed(cs, c);
    }
    GatherOver(cs, cs, query);
  }

  /** With unique names, a single match resolves to the one company whose name matches. */
  lemma SingleIsTheMatch(cs: seq<Company>, query: string)
    requires DistinctBy(cs, NameKey)
    requires |Matches(Names(cs), query)| == 1
    ensures var found := Matches(Names(cs), query);
            && MatchingCompanies(cs, query) == CompaniesNamed(cs, found[0])
            && |MatchingCompanies(cs, query)| == 1
  {
    MatchesNames(cs, query);
    var m := MatchingCompanies(cs, query);
    assert m[0] in m;
    OnlyCompanyNamed(cs, m[0]);
  }

  lemma LowerExample()
    ensures Lower("e") == "e" && Lower("Seznam") == "seznam" && Lower("Alza") == "alza" && Lower("CEZ") == "cez"
  {
  }

  lemma ContainsExample()
    ensures Contains("seznam", "e") && !Contains("alza", "e") && Contains("cez", "e")
  {
    assert Contains("eznam", "e");
    assert Contains("ez", "e");
    assert !Contains("", "e");
    assert "a"[1..] == "" && "a"[..1][0] != "e"[0];
    assert !Contains("a", "e");
    assert "za"[1..] == "a" && "za"[..1][0] != "e"[0];
    assert !Contains("za", "e");
    assert "lza"[1..] == "za" && "lza"[..1][0] != "e"[0];
    assert !Contains("lza", "e");
    assert "alza"[1..] == "lza" && "alza"[..1][0] != "e"[0];
  }

  /** Searching "e" among Seznam, Alza and CEZ finds Seznam and CEZ, so the user must choose. */
  lemma SearchExample()
    ensures Matches(["Seznam", "Alza", "CEZ"], "e") == ["Seznam", "CEZ"]
  {
    LowerExample();
    ContainsExample();
    var q := NameMatches("e");
    assert q("Seznam") && !q("Alza") && q("CEZ");
    var names: seq<string> := ["Seznam", "Alza", "CEZ"];
    assert names[1..][1..][1..] == [];
    assert Filter(names[1..][1..], q) == ["CEZ"];
    assert Filter(names[1..], q) == ["CEZ"];
  }
}
