/**
 * The aggregate rating columns of a company: `points_total`,
 * `number_of_reviews` and `current_score`, updated each time a review is
 * submitted.
 */
module Aggregate {
  import opened Schema
  import opened Sequences

  /** `current_score == points_total / number_of_reviews` whenever a review has been counted. */
  ghost predicate ScoreAgrees(c: Company)
  {
    c.reviewCount > 0 ==> c.score == c.pointsTotal as real / c.reviewCount as real
  }

  /** The update that one submitted review makes to its company's row. */
  function AddRating(c: Company, rating: int): (r: Company)
    ensures r.pointsTotal == c.pointsTotal + rating && r.reviewCount == c.reviewCount + 1
    ensures ScoreAgrees(r)
    ensures r.(pointsTotal := c.pointsTotal, reviewCount := c.reviewCount, score := c.score) == c
  {
    var total := c.pointsTotal + rating;
    var count := c.reviewCount + 1;
    c.(pointsTotal := total, reviewCount := count, score := total as real / count as real)
  }

  /** `UPDATE companies SET ... WHERE id = ?` with the values AddRating computes. */
  function RateCompany(cs: seq<Company>, id: int, rating: int): (r: seq<Company>)
    ensures |r| == |cs|
    ensures forall k :: 0 <= k < |cs| ==> r[k].id == cs[k].id && r[k].name == cs[k].name
    ensures forall k :: 0 <= k < |cs| && cs[k].id != id ==> r[k] == cs[k]
    ensures forall k :: 0 <= k < |cs| && cs[k].id == id ==>
              && r[k].pointsTotal == cs[k].pointsTotal + rating
              && r[k].reviewCount == cs[k].reviewCount + 1
              && ScoreAgrees(r[k])
  {
    seq(|cs|, k requires 0 <= k < |cs| => if cs[k].id == id then AddRating(cs[k], rating) else cs[k])
  }

  /** Rating a company keeps ids and names unique and every score in agreement with its totals. */
  lemma RateCompanyKeeps(cs: seq<Company>, id: int, rating: int, bound: int)
    requires DistinctBy(cs, CompanyKey) && DistinctBy(cs, NameKey) && KeysBelow(cs, CompanyKey, bound)
    requires forall c :: c in cs ==> ScoreAgrees(c)
    ensures var r := RateCompany(cs, id, rating);
            && DistinctBy(r, CompanyKey) && DistinctBy(r, NameKey) && KeysBelow(r, CompanyKey, bound)
            && forall c :: c in r ==> ScoreAgrees(c)
  {
    var r := RateCompany(cs, id, rating);
    forall c | c in r ensures ScoreAgrees(c) && c.id < bound {
      var k :| 0 <= k < |r| && r[k] == c;
      assert cs[k] in cs;
    }
    forall i, j | 0 <= i < j < |r| ensures r[i].id != r[j].id && r[i].name != r[j].name {
      assert CompanyKey(cs[i]) != CompanyKey(cs[j]) && NameKey(cs[i]) != NameKey(cs[j]);
    }
  }

  // ---------------------------------------------------------------- a sequence of submissions

  function Sum(ratings: seq<int>): int
  {
    if ratings == [] then 0 else Sum(ratings[..|ratings| - 1]) + ratings[|ratings| - 1]
  }

  /** The company row after the given reviews were submitted one after another. */
  function AddRatings(c: Company, ratings: seq<int>): Company
  {
    if ratings == [] then c
    else AddRating(AddRatings(c, ratings[..|ratings| - 1]), ratings[|ratings| - 1])
  }

  /**
   * `points_total` is the sum of every rating ever submitted, `number_of_reviews`
   * their count, and the score their exact mean; nothing else in the row changes.
   */
  lemma {:induction false} AddRatingsTotals(c: Company, ratings: seq<int>)
    ensures var r := AddRatings(c, ratings);
            && r.pointsTotal == c.pointsTotal + Sum(ratings)
            && r.reviewCount == c.reviewCount + |ratings|
            && (|ratings| > 0 ==> r.score == r.pointsTotal as real / r.reviewCount as real)
            && r.(pointsTotal := c.pointsTotal, reviewCount := c.reviewCount, score := c.score) == c
  {
    if ratings != [] {
      AddRatingsTotals(c, ratings[..|ratings| - 1]);
    }
  }

  /**
   * Two reviews rated 4 and 5 for a company with no reviews leave it at 9 points
   * over 2 reviews, a score of 4.5, in whichever order they arrive.
   */
  lemma TwoSubmissions(c: Company)
    requires c.pointsTotal == 0 && c.reviewCount == 0
    ensures AddRatings(c, [4, 5]) == AddRatings(c, [5, 4])
    ensures var r := AddRatings(c, [4, 5]); r.pointsTotal == 9 && r.reviewCount == 2 && r.score == 4.5
  {
    assert [4, 5][..1] == [4] && [5, 4][..1] == [5] && [4][..0] == [] && [5][..0] == [];
    assert AddRatings(c, [4]) == AddRating(c, 4);
    assert AddRatings(c, [4, 5]) == AddRating(AddRating(c, 4), 5);
  }
}
