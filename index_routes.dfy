/** The decision logic of the user routes: the admin code of registration, the
    password-reset token (issue on `/forgot`, check on `GET /reset/:token`,
    consume on `POST /reset/:token`) and the author filter of the profile page. */
module IndexRoutes {
  import opened Wrappers
  import opened Domain
  import Hex

  /** The sign-up code that makes a new user an administrator. */
  const AdminCode: string := "SilverFreak"

  /** How long a reset token stays valid, in milliseconds (one hour). */
  const ResetWindowMs: int := 3600000

  /** How many random bytes a reset token is made of. */
  const TokenBytes: int := 20

  /** A stored user. `credential` is the salted hash the password library keeps;
      the two reset fields are unset (None) unless a reset is pending. */
  datatype Account = Account(
    id: UserId,
    username: string,
    firstName: string,
    lastName: string,
    avatar: string,
    email: string,
    credential: string,
    isAdmin: bool,
    resetPasswordToken: Option<string>,
    resetPasswordExpires: Option<int>)

  // ---------------------------------------------------------------------------
  // REGISTER

  /** The fields of the sign-up form; `adminCode` is None when the field is absent. */
  datatype SignUpForm = SignUpForm(
    username: string, firstName: string, lastName: string, avatar: string, email: string,
    adminCode: Option<string>)

  /** The user `POST /register` builds and registers. `credential` is what the
      password library stores for the submitted password; `schemaIsAdmin` is the
      default the user schema gives `isAdmin`. */
  function NewUser(id: UserId, form: SignUpForm, credential: string, schemaIsAdmin: bool): (a: Account)
    ensures form.adminCode == Some(AdminCode) ==> a.isAdmin
    ensures form.adminCode != Some(AdminCode) ==> a.isAdmin == schemaIsAdmin
    ensures a.id == id && a.username == form.username && a.email == form.email && a.credential == credential
    ensures a.firstName == form.firstName && a.lastName == form.lastName && a.avatar == form.avatar
    ensures a.resetPasswordToken == None && a.resetPasswordExpires == None
  {
    var isAdmin := if form.adminCode == Some(AdminCode) then true else schemaIsAdmin;
    Account(id, form.username, form.firstName, form.lastName, form.avatar, form.email,
            credential, isAdmin, None, None)
  }

  /** Only the exact code grants the flag: a code differing in case does not. */
  lemma AdminCodeIsExact(id: UserId, form: SignUpForm, credential: string)
    requires form.adminCode == Some("silverfreak")
    ensures !NewUser(id, form, credential, false).isAdmin
  {
    assert "silverfreak"[0] != AdminCode[0];
  }

  // ---------------------------------------------------------------------------
  // Looking users up

  /** The two `User.findOne` filters of the reset flow. */
  datatype UserQuery = ByEmail(email: string) | ByResetToken(token: string, now: int)

  /** `{ email }`, and `{ resetPasswordToken: token, resetPasswordExpires: { $gt: now } }`. */
  predicate Selects(q: UserQuery, a: Account) {
    match q
    case ByEmail(email) => a.email == email
    case ByResetToken(token, now) =>
      a.resetPasswordToken == Some(token) && a.resetPasswordExpires.Some? && a.resetPasswordExpires.value > now
  }

  /** `User.findOne(q)`: the position of the first user, in store order, that the
      filter selects. */
  function FindOne(accounts: seq<Account>, q: UserQuery): (r: Option<nat>)
    ensures r.Some? ==> r.value < |accounts| && Selects(q, accounts[r.value])
    ensures r.Some? ==> forall j :: 0 <= j < r.value ==> !Selects(q, accounts[j])
    ensures r.None? ==> forall j :: 0 <= j < |accounts| ==> !Selects(q, accounts[j])
  {
    if accounts == [] then None
    else if Selects(q, accounts[0]) then Some(0)
    else
      match FindOne(accounts[1..], q)
      case None => None
      case Some(i) => Some(i + 1)
  }

  // ---------------------------------------------------------------------------
  // The reset flow as functions of the user table

  /** The account once a token is issued to it. */
  function WithToken(a: Account, token: string, now: int): Account {
    a.(resetPasswordToken := Some(token), resetPasswordExpires := Some(now + ResetWindowMs))
  }

  /** What `/forgot` reports; the mail with the token goes to `to`. */
  datatype ForgotOutcome = NoAccountWithEmail | ResetMailSent(to: string, token: string)

  /** `POST /forgot` on the user table, with the random bytes and the clock given. */
  function Forgot(accounts: seq<Account>, email: string, random: seq<Hex.Byte>, now: int): (r: (seq<Account>, ForgotOutcome))
    ensures |r.0| == |accounts|
    ensures r.1.NoAccountWithEmail? <==> forall j :: 0 <= j < |accounts| ==> accounts[j].email != email
    ensures r.1.NoAccountWithEmail? ==> r.0 == accounts
    ensures r.1.ResetMailSent? ==> r.1.to == email && r.1.token == Hex.Encode(random)
  {
    var token := Hex.Encode(random);
    match FindOne(accounts, ByEmail(email))
    case None => (accounts, NoAccountWithEmail)
    case Some(i) => (accounts[i := WithToken(accounts[i], token, now)], ResetMailSent(accounts[i].email, token))
  }

  /** The account once its reset is consumed: the new credential when the password
      library produced one (its error is ignored), both reset fields unset. */
  function Consumed(a: Account, newCredential: Option<string>): Account {
    a.(credential := if newCredential.Some? then newCredential.value else a.credential,
       resetPasswordToken := None,
       resetPasswordExpires := None)
  }

  /** What `POST /reset/:token` reports; PasswordChanged also logs that user in. */
  datatype ResetOutcome = TokenInvalid | PasswordsDiffer | PasswordChanged(user: nat)

  /** `POST /reset/:token` on the user table. The password fields are None when
      absent from the form; `setPassword` is the password library's hashing, None
      when it fails. */
  function Reset(accounts: seq<Account>, token: string, password: Option<string>, confirm: Option<string>,
                 now: int, setPassword: Option<string> -> Option<string>): (r: (seq<Account>, ResetOutcome))
    ensures |r.0| == |accounts|
    ensures r.1.TokenInvalid? <==> forall j :: 0 <= j < |accounts| ==> !Selects(ByResetToken(token, now), accounts[j])
    ensures r.1.PasswordChanged? ==>
      && password == confirm && r.1.user < |accounts|
      && accounts[r.1.user].resetPasswordToken == Some(token)
      && r.0[r.1.user].resetPasswordToken == None
    ensures !r.1.PasswordChanged? ==> r.0 == accounts
  {
    match FindOne(accounts, ByResetToken(token, now))
    case None => (accounts, TokenInvalid)
    case Some(i) =>
      if password == confirm then (accounts[i := Consumed(accounts[i], setPassword(password))], PasswordChanged(i))
      else (accounts, PasswordsDiffer)
  }

  /** No other user than the one at `i` holds `token`. */
  predicate HeldOnlyBy(accounts: seq<Account>, token: string, i: nat) {
    forall j :: 0 <= j < |accounts| && j != i ==> accounts[j].resetPasswordToken != Some(token)
  }

  /** A token is set exactly when its expiry is. */
  predicate ResetFieldsPaired(accounts: seq<Account>) {
    forall j :: 0 <= j < |accounts| ==> (accounts[j].resetPasswordToken.Some? <==> accounts[j].resetPasswordExpires.Some?)
  }

  /** An unknown e-mail address changes no user. */
  lemma ForgotUnknownEmail(accounts: seq<Account>, email: string, random: seq<Hex.Byte>, now: int)
    requires forall j :: 0 <= j < |accounts| ==> accounts[j].email != email
    ensures Forgot(accounts, email, random, now) == (accounts, NoAccountWithEmail)
  {
  }

  /** A known address: the first user with it gets a 40-digit lower-case hex token
      that spells the random bytes, expiring one hour from now; the mail goes to
      that address; no other user changes. */
  lemma ForgotIssuesToken(accounts: seq<Account>, email: string, random: seq<Hex.Byte>, now: int)
    requires |random| == TokenBytes
    requires exists j :: 0 <= j < |accounts| && accounts[j].email == email
    ensures var (after, outcome) := Forgot(accounts, email, random, now);
      && outcome.ResetMailSent? && outcome.to == email
      && |outcome.token| == 40 && (forall k :: 0 <= k < 40 ==> Hex.IsLowerHex(outcome.token[k]))
      && Hex.Decode(outcome.token) == Some(random)
      && |after| == |accounts|
      && exists i :: 0 <= i < |accounts|
           && accounts[i].email == email
           && after[i] == accounts[i].(resetPasswordToken := Some(outcome.token),
                                       resetPasswordExpires := Some(now + 3600000))
           && forall j :: 0 <= j < |accounts| && j != i ==> after[j] == accounts[j]
  {
    Hex.DecodeEncode(random);
    var i :| 0 <= i < |accounts| && accounts[i].email == email;
    var k := FindOne(accounts, ByEmail(email)).value;
  }

  /** The issued token's own record passes the check exactly while the clock is
      before its expiry, at `now + 3600000` no longer (the comparison is strict);
      before then the lookup succeeds. */
  lemma IssuedTokenLifetime(accounts: seq<Account>, email: string, random: seq<Hex.Byte>, now: int, later: int)
    requires FindOne(accounts, ByEmail(email)).Some?
    ensures var (after, outcome) := Forgot(accounts, email, random, now);
      var i := FindOne(accounts, ByEmail(email)).value;
      && outcome.ResetMailSent?
      && (Selects(ByResetToken(outcome.token, later), after[i]) <==> later < now + 3600000)
      && (later < now + 3600000 ==> FindOne(after, ByResetToken(outcome.token, later)).Some?)
  {
    var (after, outcome) := Forgot(accounts, email, random, now);
    var i := FindOne(accounts, ByEmail(email)).value;
    if later < now + 3600000 {
      assert Selects(ByResetToken(outcome.token, later), after[i]);
    }
  }

  /** When no other user already held the new token, the lookup of
      `GET /reset/:token` finds a user with it exactly while the clock is before
      the expiry: at `now + 3600000` the token no longer validates. */
  lemma IssuedTokenValidatesIff(accounts: seq<Account>, email: string, random: seq<Hex.Byte>, now: int, later: int)
    requires FindOne(accounts, ByEmail(email)).Some?
    requires HeldOnlyBy(accounts, Hex.Encode(random), FindOne(accounts, ByEmail(email)).value)
    ensures var (after, outcome) := Forgot(accounts, email, random, now);
      && outcome.ResetMailSent?
      && (FindOne(after, ByResetToken(outcome.token, later)).Some? <==> later < now + 3600000)
  {
    var (after, outcome) := Forgot(accounts, email, random, now);
    var i := FindOne(accounts, ByEmail(email)).value;
    IssuedTokenLifetime(accounts, email, random, now, later);
    if later >= now + 3600000 {
      forall j | 0 <= j < |after| ensures !Selects(ByResetToken(outcome.token, later), after[j]) {
        if j != i {
          assert after[j] == accounts[j];
        }
      }
    }
  }

  /** A token validates iff some user holds it and its expiry is after now. */
  lemma ValidateIff(accounts: seq<Account>, token: string, now: int)
    ensures FindOne(accounts, ByResetToken(token, now)).Some? <==>
      exists j :: 0 <= j < |accounts| && accounts[j].resetPasswordToken == Some(token)
                  && accounts[j].resetPasswordExpires.Some? && accounts[j].resetPasswordExpires.value > now
  {
    var r := FindOne(accounts, ByResetToken(token, now));
    if r.None? {
      forall j | 0 <= j < |accounts| ensures !Selects(ByResetToken(token, now), accounts[j]) { }
    }
  }

  /** An invalid or expired token changes no user. */
  lemma ResetInvalidToken(accounts: seq<Account>, token: string, password: Option<string>, confirm: Option<string>,
                          now: int, setPassword: Option<string> -> Option<string>)
    requires forall j :: 0 <= j < |accounts| ==> !Selects(ByResetToken(token, now), accounts[j])
    ensures Reset(accounts, token, password, confirm, now, setPassword) == (accounts, TokenInvalid)
  {
  }

  /** Passwords that differ change no user: password, token and expiry all stay;
      with a valid token the answer is PasswordsDiffer. */
  lemma ResetMismatch(accounts: seq<Account>, token: string, password: Option<string>, confirm: Option<string>,
                      now: int, setPassword: Option<string> -> Option<string>)
    requires password != confirm
    ensures Reset(accounts, token, password, confirm, now, setPassword).0 == accounts
    ensures Reset(accounts, token, password, confirm, now, setPassword).1 ==
      if FindOne(accounts, ByResetToken(token, now)).Some? then PasswordsDiffer else TokenInvalid
  {
  }

  /** A successful reset touches only the first user holding the valid token: it
      gets the new credential (or keeps the old one when hashing failed) and loses
      both reset fields; every other field of it, `isAdmin` included, stays. */
  lemma ResetConsumes(accounts: seq<Account>, token: string, password: Option<string>,
                      now: int, setPassword: Option<string> -> Option<string>)
    requires FindOne(accounts, ByResetToken(token, now)).Some?
    ensures var i := FindOne(accounts, ByResetToken(token, now)).value;
      var (after, outcome) := Reset(accounts, token, password, password, now, setPassword);
      && outcome == PasswordChanged(i)
      && |after| == |accounts|
      && after[i] == accounts[i].(
           credential := if setPassword(password).Some? then setPassword(password).value else accounts[i].credential,
           resetPasswordToken := None,
           resetPasswordExpires := None)
      && forall j :: 0 <= j < |accounts| && j != i ==> after[j] == accounts[j]
  {
  }

  /** Single use: once a reset succeeded, a token no other user held never
      validates again, at any time, and a second reset with it is refused and
      changes nothing. */
  lemma ResetIsSingleUse(accounts: seq<Account>, token: string, password: Option<string>,
                         now: int, setPassword: Option<string> -> Option<string>,
                         later: int, password2: Option<string>, confirm2: Option<string>)
    requires FindOne(accounts, ByResetToken(token, now)).Some?
    requires HeldOnlyBy(accounts, token, FindOne(accounts, ByResetToken(token, now)).value)
    ensures var after := Reset(accounts, token, password, password, now, setPassword).0;
      && FindOne(after, ByResetToken(token, later)) == None
      && Reset(after, token, password2, confirm2, later, setPassword) == (after, TokenInvalid)
  {
    var i := FindOne(accounts, ByResetToken(token, now)).value;
    var after := Reset(accounts, token, password, password, now, setPassword).0;
    assert after == accounts[i := Consumed(accounts[i], setPassword(password))];
    forall j | 0 <= j < |after| ensures !Selects(ByResetToken(token, later), after[j]) {
      if j != i {
        assert after[j] == accounts[j];
      }
    }
  }

  /** Issuing and consuming keep every token paired with an expiry. */
  lemma ResetFieldsStayPaired(accounts: seq<Account>, email: string, random: seq<Hex.Byte>, now: int,
                              token: string, password: Option<string>, confirm: Option<string>,
                              setPassword: Option<string> -> Option<string>)
    requires ResetFieldsPaired(accounts)
    ensures ResetFieldsPaired(Forgot(accounts, email, random, now).0)
    ensures ResetFieldsPaired(Reset(accounts, token, password, confirm, now, setPassword).0)
  {
  }

  /** The whole lifecycle: a reset requested for a known address and completed
      within the hour logs that user in, and afterwards the mailed token, if no
      other user held it, is dead. */
  lemma ResetLifecycle(accounts: seq<Account>, email: string, random: seq<Hex.Byte>, now: int,
                       at: int, password: Option<string>, setPassword: Option<string> -> Option<string>,
                       later: int)
    requires FindOne(accounts, ByEmail(email)).Some?
    requires HeldOnlyBy(accounts, Hex.Encode(random), FindOne(accounts, ByEmail(email)).value)
    requires now <= at < now + ResetWindowMs
    ensures var (issued, mail) := Forgot(accounts, email, random, now);
      var (done, outcome) := Reset(issued, mail.token, password, password, at, setPassword);
      && outcome == PasswordChanged(FindOne(accounts, ByEmail(email)).value)
      && FindOne(done, ByResetToken(mail.token, later)) == None
  {
    var i := FindOne(accounts, ByEmail(email)).value;
    var token := Hex.Encode(random);
    var issued := Forgot(accounts, email, random, now).0;
    assert issued == accounts[i := WithToken(accounts[i], token, now)];
    assert Selects(ByResetToken(token, at), issued[i]);
    forall j | 0 <= j < |issued| && j != i ensures !Selects(ByResetToken(token, at), issued[j]) {
      assert issued[j] == accounts[j];
    }
    assert FindOne(issued, ByResetToken(token, at)) == Some(i);
    assert HeldOnlyBy(issued, token, i);
    ResetIsSingleUse(issued, token, password, at, setPassword, later, password, password);
  }

  // ---------------------------------------------------------------------------
  // The user table as the routes change it

  /** The users collection; the reset routes find a user, change its fields and
      save it back. */
  class UserStore {
    var accounts: seq<Account>

    constructor (accounts: seq<Account>)
      ensures this.accounts == accounts
    {
      this.accounts := accounts;
    }

    /** `User.findOne(q)`: scans the users in store order. */
    method FindUser(q: UserQuery) returns (r: Option<nat>)
      ensures r == FindOne(accounts, q)
    {
      var i := 0;
      while i < |accounts|
        invariant 0 <= i <= |accounts|
        invariant forall j :: 0 <= j < i ==> !Selects(q, accounts[j])
      {
        if Selects(q, accounts[i]) {
          return Some(i);
        }
        i := i + 1;
      }
      return None;
    }

    /** `POST /forgot`: `random` is what `crypto.randomBytes(20)` produced and
        `now` is `Date.now()`. */
    method PostForgot(email: string, random: seq<Hex.Byte>, now: int) returns (outcome: ForgotOutcome)
      requires |random| == TokenBytes
      modifies this
      ensures (accounts, outcome) == Forgot(old(accounts), email, random, now)
    {
      var token := Hex.Encode(random);
      var found := FindUser(ByEmail(email));
      match found
      case None =>
        outcome := NoAccountWithEmail;
      case Some(i) =>
        var user := accounts[i];
        accounts := accounts[i := WithToken(user, token, now)];
        outcome := ResetMailSent(user.email, token);
    }

    /** `GET /reset/:token`: whether the reset form is shown. */
    method GetReset(token: string, now: int) returns (valid: bool)
      ensures valid <==> exists j :: 0 <= j < |accounts| && accounts[j].resetPasswordToken == Some(token)
                          && accounts[j].resetPasswordExpires.Some? && accounts[j].resetPasswordExpires.value > now
    {
      var found := FindUser(ByResetToken(token, now));
      ValidateIff(accounts, token, now);
      valid := found.Some?;
    }

    /** `POST /reset/:token`. */
    method PostReset(token: string, password: Option<string>, confirm: Option<string>, now: int,
                     setPassword: Option<string> -> Option<string>) returns (outcome: ResetOutcome)
      modifies this
      ensures (accounts, outcome) == Reset(old(accounts), token, password, confirm, now, setPassword)
    {
      var found := FindUser(ByResetToken(token, now));
      match found
      case None =>
        outcome := TokenInvalid;
      case Some(i) =>
        if password == confirm {
          accounts := accounts[i := Consumed(accounts[i], setPassword(password))];
          outcome := PasswordChanged(i);
        } else {
          outcome := PasswordsDiffer;
        }
    }
  }

  // ---------------------------------------------------------------------------
  // USER PROFILE

  /** `Campground.find().where("author.id").equals(id)`, in store order. */
  function AuthoredBy(listings: seq<Listing>, user: UserId): (r: seq<Listing>)
    ensures forall x :: x in r ==> x in listings && x.author.id == user
  {
    if listings == [] then []
    else (if listings[0].author.id == user then [listings[0]] else []) + AuthoredBy(listings[1..], user)
  }

  /** Every listing the user authored is on the profile, in store order. */
  lemma {:induction false} AuthoredByComplete(listings: seq<Listing>, user: UserId)
    ensures forall x :: x in listings && x.author.id == user ==> x in AuthoredBy(listings, user)
    ensures forall a, b :: listings == a + b ==> AuthoredBy(listings, user) == AuthoredBy(a, user) + AuthoredBy(b, user)
  {
    if listings != [] {
      AuthoredByComplete(listings[1..], user);
      assert listings == [listings[0]] + listings[1..];
      forall a, b | listings == a + b
        ensures AuthoredBy(listings, user) == AuthoredBy(a, user) + AuthoredBy(b, user)
      {
        if a != [] {
          assert a[0] == listings[0] && listings[1..] == a[1..] + b;
        } else {
          assert b == listings;
        }
      }
    } else {
      forall a, b | listings == a + b
        ensures AuthoredBy(listings, user) == AuthoredBy(a, user) + AuthoredBy(b, user)
      {
        assert a == [] && b == [];
      }
    }
  }

  /** What `User.findById` gave: an error (a malformed id), nothing, or the user. */
  datatype UserLookup = LookupError | NoSuchUser | FoundUser(account: Account)

  /** ProfileCrashed: the callback read `_id` of a null user and threw. */
  datatype ProfileOutcome = ShowProfile(user: Account, campgrounds: seq<Listing>) | RedirectHome | ProfileCrashed

  /** `GET /users/:id` as written: a well-formed id that matches no user is not
      an error, so the route reads `foundUser._id` of null. */
  function ProfileAsWritten(lookup: UserLookup, listings: seq<Listing>): (r: ProfileOutcome)
    ensures r.ProfileCrashed? <==> lookup == NoSuchUser
    ensures r.RedirectHome? <==> lookup == LookupError
  {
    match lookup
    case LookupError => RedirectHome
    case NoSuchUser => ProfileCrashed
    case FoundUser(a) => ShowProfile(a, AuthoredBy(listings, a.id))
  }

  /** A well-formed id of no user crashes the written profile route. */
  lemma ProfileCrashesOnMissingUser(listings: seq<Listing>)
    ensures ProfileAsWritten(NoSuchUser, listings) == ProfileCrashed
  {
  }

  /** `GET /users/:id` as evidently intended: a missing user is sent home like a
      failed lookup; a found user's page lists exactly the listings it authored. */
  function Profile(lookup: UserLookup, listings: seq<Listing>): (r: ProfileOutcome)
    ensures !r.ProfileCrashed?
    ensures r.ShowProfile? <==> lookup.FoundUser?
    ensures r.ShowProfile? ==> r.user == lookup.account
    ensures r.ShowProfile? ==>
      forall x :: x in r.campgrounds <==> x in listings && x.author.id == lookup.account.id
  {
    match lookup
    case FoundUser(a) =>
      AuthoredByComplete(listings, a.id);
      ShowProfile(a, AuthoredBy(listings, a.id))
    case _ => RedirectHome
  }

  /** The intended route agrees with the written one except on a missing user. */
  lemma ProfileDiffersOnlyOnMissingUser(lookup: UserLookup, listings: seq<Listing>)
    ensures ProfileAsWritten(lookup, listings) != Profile(lookup, listings) <==> lookup == NoSuchUser
  {
  }
}
