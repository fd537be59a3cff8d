/**
 * The database context the repositories share: the three tables, the
 * counter that generates tool keys, and the constraints the schema puts on
 * them (AppDbContext's model: unique keys, the composite favourite key, the
 * two foreign keys with cascading delete).
 */
module Data {
  import opened Models

  /** How a change written with SaveChanges ends: saved, or with the exception it throws. */
  datatype Outcome = Done | Thrown(message: string)

  /** Stands for the message of the DbUpdateException a violated key or foreign key raises. */
  const ConstraintViolated := "An error occurred while saving the entity changes."
  /** Stands for the message of the DbUpdateConcurrencyException an update of a missing row raises. */
  const NoRowAffected := "The database operation was expected to affect 1 row(s), but actually affected 0 row(s)."

  class AppDbContext {
    var tools: seq<Tool>
    var users: seq<User>
    var favorites: set<Favorite>
    /** The next value the auto-increment tool key gives. */
    var nextTid: int

    /** The schema's constraints hold. */
    ghost predicate Valid()
      reads this
    {
      ToolKeysUnique(tools) && UserKeysUnique(users) &&
      (forall t :: t in tools ==> t.tid < nextTid) &&
      ReferencesExist(favorites, tools, users)
    }

    /** An empty database. */
    constructor ()
      ensures tools == [] && users == [] && favorites == {} && nextTid == 1
      ensures Valid()
    {
      tools, users, favorites, nextTid := [], [], {}, 1;
    }
  }
}
