/** The decision logic of the campground routes: the paginated and searchable
    index, the geocoder guard of create and update, and the like toggle. */
module CampgroundRoutes {
  import opened Wrappers
  import opened Domain
  import opened SearchPattern
  import opened PageQuery

  /** `perPage` of the index route. */
  const PerPage: int := 8

  function Min(a: int, b: int): int { if a <= b then a else b }
  function Max(a: int, b: int): int { if a <= b then b else a }

  // ---------------------------------------------------------------------------
  // INDEX

  /** `.skip(perPage * pageNumber - perPage)`. */
  function Skip(pageNumber: int): (r: int)
    ensures r < 0 <==> pageNumber < 1
  {
    PerPage * pageNumber - PerPage
  }

  /** `.skip(skip).limit(perPage)` over the candidates in store order. MongoDB
      refuses a negative skip: the route's callback then gets an error and an
      undefined result, which is None here. */
  function FindWindow(candidates: seq<Listing>, skip: int): (r: Option<seq<Listing>>)
    ensures r.None? <==> skip < 0
    ensures r.Some? ==> |r.value| == Min(PerPage, Max(0, |candidates| - skip))
    ensures r.Some? ==> forall k :: 0 <= k < |r.value| ==> r.value[k] == candidates[skip + k]
  {
    if skip < 0 then None
    else if skip >= |candidates| then Some([])
    else Some(candidates[skip..Min(skip + PerPage, |candidates|)])
  }

  /** `Math.ceil(count / perPage)`. */
  function PageCount(count: nat): (r: nat)
    ensures PerPage * r >= count
    ensures r > 0 ==> PerPage * (r - 1) < count
  {
    (count + PerPage - 1) / PerPage
  }

  /** `Campground.find({ name: regex })`: the listings, in store order, whose name
      the pattern matches. */
  function SearchCandidates(all: seq<Listing>, pattern: string): (r: seq<Listing>)
    ensures forall x :: x in r ==> x in all && RegexTest(pattern, x.name) == Some(true)
  {
    if all == [] then []
    else (if RegexTest(pattern, all[0].name) == Some(true) then [all[0]] else [])
         + SearchCandidates(all[1..], pattern)
  }

  /** A pattern the server can run. The driver refuses to send a source that
      holds a NUL character. A line or paragraph separator (U+2028, U+2029) is
      written into the RegExp source as the escape `\u2028` or `\u2029`, which
      PCRE refuses. Either way the find fails as it does for a refused skip. */
  predicate Sendable(pattern: string) {
    '\0' !in pattern && '\U{2028}' !in pattern && '\U{2029}' !in pattern
  }

  /** `Campground.find({ name: regex }).skip(skip).limit(perPage)`. */
  function FindMatching(all: seq<Listing>, pattern: string, skip: int): (r: Option<seq<Listing>>)
    ensures r.None? <==> skip < 0 || !Sendable(pattern)
    ensures r.Some? ==> forall x :: x in r.value ==> x in all && RegexTest(pattern, x.name) == Some(true)
  {
    if Sendable(pattern) then FindWindow(SearchCandidates(all, pattern), skip) else None
  }

  /** escapeRegex keeps every character but the backslash it adds: a character
      other than a backslash occurs in the escaped text iff it occurs in the text. */
  lemma {:induction false} EscapeKeepsChar(s: string, c: char)
    requires c != '\\'
    ensures c in Escape(s) <==> c in s
  {
    if s != [] {
      EscapeKeepsChar(s[1..], c);
      assert Escape(s) == EscapeChar(s[0]) + Escape(s[1..]);
      assert s == [s[0]] + s[1..];
    }
  }

  /** The escaped search text can be sent iff the raw text can. */
  lemma EscapeKeepsSendable(s: string)
    ensures Sendable(Escape(s)) <==> Sendable(s)
  {
    EscapeKeepsChar(s, '\0');
    EscapeKeepsChar(s, '\U{2028}');
    EscapeKeepsChar(s, '\U{2029}');
  }

  /** The listings, in store order, whose name contains `text` ignoring case. */
  function NamesContaining(all: seq<Listing>, text: string): seq<Listing> {
    if all == [] then []
    else (if ContainsIgnoringCase(all[0].name, text) then [all[0]] else [])
         + NamesContaining(all[1..], text)
  }

  /** Searching with the escaped text selects exactly the names that contain the
      raw text, in the same order. */
  lemma {:induction false} SearchIsSubstringFilter(all: seq<Listing>, text: string)
    ensures SearchCandidates(all, Escape(text)) == NamesContaining(all, text)
  {
    if all != [] {
      EscapedSearchIsSubstring(text, all[0].name);
      SearchIsSubstringFilter(all[1..], text);
    }
  }

  lemma {:induction false} NamesContainingMembers(all: seq<Listing>, text: string)
    ensures forall x :: x in NamesContaining(all, text) <==> x in all && ContainsIgnoringCase(x.name, text)
  {
    if all != [] {
      NamesContainingMembers(all[1..], text);
      assert all == [all[0]] + all[1..];
    }
  }

  /** What `res.render("campgrounds/index", ...)` receives; `campgrounds` is None
      when the find failed and the route passes `undefined` on. */
  datatype IndexView = IndexView(campgrounds: Option<seq<Listing>>, current: int, pages: nat, noMatch: bool)

  /** IndexCrashed: the callback read `.length` of an undefined result and threw. */
  datatype IndexOutcome = Rendered(view: IndexView) | IndexCrashed

  /** A query parameter is truthy when present and not the empty string. */
  predicate Truthy(param: Option<string>) {
    param.Some? && param.value != ""
  }

  /** The index route, `GET /campgrounds`, over all listings in store order. */
  function Index(all: seq<Listing>, search: Option<string>, page: Option<string>): (r: IndexOutcome)
    ensures r.IndexCrashed? ==> Truthy(search)
    ensures r.Rendered? ==> r.view.current != 0 && r.view.pages == PageCount(|all|)
  {
    IndexPage(all, search, PageNumber(page))
  }

  /** The index route once the page number is known. */
  function IndexPage(all: seq<Listing>, search: Option<string>, pageNumber: int): (r: IndexOutcome)
    ensures r.IndexCrashed? <==> Truthy(search) && (pageNumber < 1 || !Sendable(Escape(search.value)))
    ensures r.Rendered? ==> r.view.current == pageNumber && r.view.pages == PageCount(|all|)
    ensures r.Rendered? && r.view.campgrounds.Some? ==> forall x :: x in r.view.campgrounds.value ==> x in all
  {
    var pages := PageCount(|all|);
    if Truthy(search) then
      match FindMatching(all, Escape(search.value), Skip(pageNumber))
      case None => IndexCrashed
      case Some(found) => Rendered(IndexView(Some(found), pageNumber, pages, |found| < 1))
    else
      Rendered(IndexView(FindWindow(all, Skip(pageNumber)), pageNumber, pages, false))
  }

  /** Without a search, page p (p >= 1) shows the listings from position 8p - 8 on,
      at most 8 of them; the page count is the ceiling of |all| / 8; no
      "no match" message. */
  lemma IndexBrowse(all: seq<Listing>, search: Option<string>, p: int)
    requires !Truthy(search) && p >= 1
    ensures IndexPage(all, search, p).Rendered?
    ensures var v := IndexPage(all, search, p).view;
      && v.current == p
      && v.campgrounds.Some?
      && |v.campgrounds.value| == Min(8, Max(0, |all| - (8 * p - 8)))
      && (forall k :: 0 <= k < |v.campgrounds.value| ==> v.campgrounds.value[k] == all[8 * p - 8 + k])
      && 8 * v.pages >= |all| && (v.pages > 0 ==> 8 * (v.pages - 1) < |all|)
      && !v.noMatch
  {
  }

  /** With a search, page p (p >= 1) is the same window over the listings whose
      name contains the search text; the page count still counts all listings;
      "no match" is reported exactly when the window is empty. */
  lemma IndexSearch(all: seq<Listing>, search: Option<string>, p: int)
    requires Truthy(search) && Sendable(search.value) && p >= 1
    ensures IndexPage(all, search, p).Rendered?
    ensures var v := IndexPage(all, search, p).view;
      var matching := NamesContaining(all, search.value);
      && v.current == p
      && v.campgrounds.Some?
      && |v.campgrounds.value| == Min(8, Max(0, |matching| - (8 * p - 8)))
      && (forall k :: 0 <= k < |v.campgrounds.value| ==> v.campgrounds.value[k] == matching[8 * p - 8 + k])
      && v.pages == PageCount(|all|)
      && v.noMatch == (v.campgrounds.value == [])
  {
    SearchIsSubstringFilter(all, search.value);
    EscapeKeepsSendable(search.value);
  }

  /** A search text holding a NUL character or a line or paragraph separator
      keeps it through escapeRegex, the find is refused and the search branch
      throws on `.length`, on every page. */
  lemma IndexSearchRefusedCrashes(all: seq<Listing>, search: Option<string>, p: int)
    requires Truthy(search) && !Sendable(search.value)
    ensures IndexPage(all, search, p) == IndexCrashed
  {
    EscapeKeepsSendable(search.value);
  }

  /** A negative page is kept: the find is refused, the search branch throws and
      the plain branch renders with no campgrounds. */
  lemma IndexNegativePage(all: seq<Listing>, search: Option<string>, p: int)
    requires p < 0
    ensures Truthy(search) ==> IndexPage(all, search, p) == IndexCrashed
    ensures !Truthy(search) ==> IndexPage(all, search, p) == Rendered(IndexView(None, p, PageCount(|all|), false))
  {
  }

  /** "No match" is only ever reported by a search whose window is empty. */
  lemma NoMatchOnlyForEmptySearch(all: seq<Listing>, search: Option<string>, p: int)
    requires IndexPage(all, search, p).Rendered? && IndexPage(all, search, p).view.noMatch
    ensures Truthy(search) && IndexPage(all, search, p).view.campgrounds == Some([])
  {
  }

  /** 17 listings: `?page=3` shows one listing, and there are 3 pages. */
  lemma SeventeenListingsExample(all: seq<Listing>)
    requires |all| == 17
    ensures Index(all, None, Some("3")) == Rendered(IndexView(Some([all[16]]), 3, 3, false))
  {
    PageThree();
    IndexAtPage(all, None, Some("3"), 3);
    IndexBrowse(all, None, 3);
    var found := IndexPage(all, None, 3).view.campgrounds.value;
    assert found == [all[16]];
    assert PageCount(17) == 3;
  }

  /** The route with a page parameter is the route at that parameter's page number. */
  lemma IndexAtPage(all: seq<Listing>, search: Option<string>, page: Option<string>, p: int)
    requires PageNumber(page) == p
    ensures Index(all, search, page) == IndexPage(all, search, p)
  {
  }

  /** `?page=3` is page 3. */
  lemma PageThree()
    ensures PageNumber(Some("3")) == 3
  {
    assert DecimalString(3) == "3";
    PageNumberDefaults(3, "3");
  }

  // ---------------------------------------------------------------------------
  // CREATE and UPDATE: the geocoder guard

  /** One result of the geocoder. */
  datatype GeoResult = GeoResult(latitude: real, longitude: real, formattedAddress: string)

  /** What the geocoder's callback receives: an error, or a (possibly empty) list. */
  datatype GeocodeReply = GeocodeError(message: string) | Geocoded(results: seq<GeoResult>)

  /** The address resolved: no error and at least one result. */
  predicate Resolved(reply: GeocodeReply) {
    reply.Geocoded? && reply.results != []
  }

  /** The create route, `POST /campgrounds`: the new campground, or None when the
      geocoder failed and the user is sent back with "Invalid address". */
  function CreateCampground(user: Principal, form: CampgroundFields, reply: GeocodeReply): (r: Option<Listing>)
    ensures r.Some? <==> Resolved(reply)
    ensures r.Some? ==>
      && r.value.author == Author(user.id, user.username)
      && r.value.name == form.name && r.value.image == form.image
      && r.value.price == form.price && r.value.description == form.description
      && r.value.location == reply.results[0].formattedAddress
      && r.value.lat == reply.results[0].latitude && r.value.lng == reply.results[0].longitude
  {
    if reply.GeocodeError? || |reply.results| == 0 then None
    else
      var first := reply.results[0];
      Some(Listing(form.name, form.image, form.price, form.description,
                   Author(user.id, user.username), first.formattedAddress, first.latitude, first.longitude))
  }

  /** The document `findByIdAndUpdate` receives: the edited fields and the resolved place. */
  datatype CampgroundUpdate = CampgroundUpdate(fields: CampgroundFields, location: string, lat: real, lng: real)

  /** UpdateCrashed: the callback threw before responding. */
  datatype UpdateOutcome = Updated(update: CampgroundUpdate) | InvalidAddress | UpdateCrashed

  /** The update route, `PUT /campgrounds/:id`, as written: with no error and an
      empty result list it logs `err.message` with `err` null, which throws. */
  function UpdateAsWritten(fields: CampgroundFields, reply: GeocodeReply): (r: UpdateOutcome)
    ensures r.UpdateCrashed? <==> reply == Geocoded([])
    ensures r.InvalidAddress? <==> reply.GeocodeError?
  {
    match reply
    case GeocodeError(_) => InvalidAddress
    case Geocoded(results) =>
      if results == [] then UpdateCrashed
      else Updated(CampgroundUpdate(fields, results[0].formattedAddress, results[0].latitude, results[0].longitude))
  }

  /** An address the geocoder finds nothing for crashes the update route. */
  lemma UpdateCrashesOnEmptyResult(fields: CampgroundFields)
    ensures UpdateAsWritten(fields, Geocoded([])) == UpdateCrashed
  {
  }

  /** The update route as evidently intended: the same guard as create, so an
      unresolved address is reported and never crashes. */
  function UpdateCampground(fields: CampgroundFields, reply: GeocodeReply): (r: UpdateOutcome)
    ensures !r.UpdateCrashed?
    ensures r.Updated? <==> Resolved(reply)
    ensures r.Updated? ==> r.update == CampgroundUpdate(fields, reply.results[0].formattedAddress,
                                                       reply.results[0].latitude, reply.results[0].longitude)
  {
    if !Resolved(reply) then InvalidAddress
    else Updated(CampgroundUpdate(fields, reply.results[0].formattedAddress,
                                  reply.results[0].latitude, reply.results[0].longitude))
  }

  /** The written update route differs from the intended one on exactly one reply. */
  lemma UpdateDiffersOnlyOnEmptyResult(fields: CampgroundFields, reply: GeocodeReply)
    ensures UpdateAsWritten(fields, reply) != UpdateCampground(fields, reply) <==> reply == Geocoded([])
  {
  }

  // ---------------------------------------------------------------------------
  // LIKE

  /** `likes.pull(user)`: every occurrence of the user removed. */
  function Pulled(likes: seq<UserId>, user: UserId): (r: seq<UserId>)
    ensures user !in r
    ensures |r| <= |likes|
  {
    if likes == [] then []
    else (if likes[0] == user then [] else [likes[0]]) + Pulled(likes[1..], user)
  }

  /** The likes after the like route: pulled when present, pushed otherwise. */
  function Toggled(likes: seq<UserId>, user: UserId): (r: seq<UserId>)
    ensures user in r <==> user !in likes
    ensures user !in likes ==> |r| == |likes| + 1 && r[..|likes|] == likes
  {
    if user in likes then Pulled(likes, user) else likes + [user]
  }

  predicate NoDuplicates(s: seq<UserId>) {
    forall i, j :: 0 <= i < j < |s| ==> s[i] != s[j]
  }

  /** Pulling keeps the other ids in their relative order. */
  lemma {:induction false} PulledConcat(a: seq<UserId>, b: seq<UserId>, user: UserId)
    ensures Pulled(a + b, user) == Pulled(a, user) + Pulled(b, user)
  {
    if a == [] {
      assert a + b == b;
    } else {
      assert (a + b)[0] == a[0] && (a + b)[1..] == a[1..] + b;
      PulledConcat(a[1..], b, user);
    }
  }

  /** Pulling removes every occurrence of the user and keeps every other id as
      often as it was there. */
  lemma {:induction false} PulledCounts(likes: seq<UserId>, user: UserId)
    ensures multiset(Pulled(likes, user))[user] == 0
    ensures forall v :: v != user ==> multiset(Pulled(likes, user))[v] == multiset(likes)[v]
    ensures |Pulled(likes, user)| == |likes| - multiset(likes)[user]
  {
    if likes != [] {
      PulledCounts(likes[1..], user);
      assert likes == [likes[0]] + likes[1..];
    }
  }

  lemma {:induction false} PulledAbsent(likes: seq<UserId>, user: UserId)
    requires user !in likes
    ensures Pulled(likes, user) == likes
  {
    if likes != [] {
      PulledAbsent(likes[1..], user);
      assert likes == [likes[0]] + likes[1..];
    }
  }

  lemma {:induction false} NoDuplicatesCount(s: seq<UserId>, user: UserId)
    requires NoDuplicates(s) && user in s
    ensures multiset(s)[user] == 1
  {
    assert s == [s[0]] + s[1..];
    if s[0] == user {
      assert user !in s[1..];
    } else {
      NoDuplicatesCount(s[1..], user);
    }
  }

  lemma {:induction false} PulledNoDuplicates(s: seq<UserId>, user: UserId)
    requires NoDuplicates(s)
    ensures NoDuplicates(Pulled(s, user))
  {
    if s != [] {
      PulledNoDuplicates(s[1..], user);
      PulledCounts(s[1..], user);
      assert s[0] !in s[1..];
      assert multiset(s[1..])[s[0]] == 0;
      assert s[0] !in Pulled(s[1..], user);
    }
  }

  /** A toggle flips the user's membership and keeps the list free of duplicates. */
  lemma ToggleFlips(likes: seq<UserId>, user: UserId)
    ensures user in Toggled(likes, user) <==> user !in likes
    ensures NoDuplicates(likes) ==> NoDuplicates(Toggled(likes, user))
  {
    if NoDuplicates(likes) && user in likes {
      PulledNoDuplicates(likes, user);
    }
  }

  /** Toggling twice restores a duplicate-free list's members and length; when the
      user had not liked, it restores the list exactly. */
  lemma ToggleTwice(likes: seq<UserId>, user: UserId)
    requires NoDuplicates(likes)
    ensures forall v :: v in Toggled(Toggled(likes, user), user) <==> v in likes
    ensures |Toggled(Toggled(likes, user), user)| == |likes|
    ensures user !in likes ==> Toggled(Toggled(likes, user), user) == likes
  {
    if user in likes {
      PulledCounts(likes, user);
      NoDuplicatesCount(likes, user);
      var once := Pulled(likes, user);
      assert Toggled(once, user) == once + [user];
      forall v ensures v in once <==> v in likes && v != user {
        assert v in once <==> multiset(once)[v] > 0;
      }
    } else {
      PulledConcat(likes, [user], user);
      PulledAbsent(likes, user);
      assert Pulled([user], user) == [];
    }
  }

  /** A campground document loaded by `findById`, whose `likes` array the like
      route changes in place before saving. */
  class Campground {
    const listing: Listing
    var likes: seq<UserId>

    constructor (listing: Listing, likes: seq<UserId>)
      ensures this.listing == listing && this.likes == likes
    {
      this.listing := listing;
      this.likes := likes;
    }

    /** `likes.some(like => like.equals(user))`. */
    method HasLiked(user: UserId) returns (found: bool)
      ensures found <==> user in likes
    {
      var i := 0;
      while i < |likes|
        invariant 0 <= i <= |likes|
        invariant user !in likes[..i]
      {
        if likes[i] == user {
          return true;
        }
        i := i + 1;
      }
      assert likes[..i] == likes;
      return false;
    }

    /** `POST /campgrounds/:id/like`: pull the user when present, push otherwise. */
    method ToggleLike(user: UserId)
      modifies this
      ensures likes == Toggled(old(likes), user)
      ensures user in likes <==> user !in old(likes)
      ensures NoDuplicates(old(likes)) ==> NoDuplicates(likes)
    {
      ToggleFlips(likes, user);
      var found := HasLiked(user);
      if found {
        likes := Pulled(likes, user);
      } else {
        likes := likes + [user];
      }
    }
  }
}
