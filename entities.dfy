/** The two stored entities, as the store keeps them (one row each). Timestamps are not
    part of the model; creation order is kept by the store itself. */
module Entities {
  import opened Wrappers

  /** A row of the `users` table. `passwordHash` is the only place the digest lives. */
  datatype User = User(
    id: int,
    email: string,
    username: string,
    passwordHash: string,
    fullName: Option<string>,
    isActive: bool)

  /** A row of the `posts` table; `userId` references a user. */
  datatype Post = Post(
    id: int,
    title: string,
    content: string,
    userId: int,
    isPublished: bool)
}
