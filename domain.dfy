/** Entities shared by the campground routes and the user routes. */
module Domain {
  /** A MongoDB ObjectId, abstracted to a number. */
  type UserId = nat

  /** The `author` pair captured when a campground is created: the creator's id and
      the username as it was at that moment, not a live reference to the account. */
  datatype Author = Author(id: UserId, username: string)

  /** The logged-in user, `req.user`, as far as the campground routes read it. */
  datatype Principal = Principal(id: UserId, username: string)

  /** The text fields of the campground forms. */
  datatype CampgroundFields = CampgroundFields(name: string, image: string, price: string, description: string)

  /** A campground document as the create route writes it. The coordinates come
      from the geocoder and are only ever copied, so reals stand in for floats. */
  datatype Listing = Listing(
    name: string,
    image: string,
    price: string,
    description: string,
    author: Author,
    location: string,
    lat: real,
    lng: real)
}
