/**
 * The rows of the four tables the application keeps: `users`, `companies`,
 * `reviews` (published) and `temp_reviews` (the moderation queue, which has
 * the same shape as `reviews`). Timestamps are whole seconds.
 */
module Schema {
  import opened Text

  /** The reserved account that `delete_account` re-assigns a user's reviews to. */
  const AnonymousUserId: int := 5

  /** The `role` column: 'user', 'company' or 'admin'. */
  datatype Role = Member | CompanyAccount | Administrator

  /** A `users` row; the password hash is not modelled. `name` is stored as sent, possibly NULL. */
  datatype User = User(id: int, email: string, name: Field, role: Role)

  /**
   * A `companies` row with its aggregate columns: `points_total`,
   * `number_of_reviews` and `current_score` (kept exactly, as a rational).
   */
  datatype Company = Company(
    id: int, name: string, kind: string, location: string, web: string, address: string,
    pointsTotal: int, reviewCount: nat, score: real)

  /** A `reviews` or `temp_reviews` row. */
  datatype Review = Review(id: int, text: string, rating: int, companyId: int, userId: int, time: int)

  // Key projections, named so that every use refers to the same function value.

  function ReviewKey(r: Review): int { r.id }

  function UserKey(u: User): int { u.id }

  function EmailKey(u: User): string { u.email }

  function CompanyKey(c: Company): int { c.id }

  function NameKey(c: Company): string { c.name }
}
