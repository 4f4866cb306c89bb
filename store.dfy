/**
 * The database the routes share, as an object whose fields are the tables.
 * Each method is one route that writes: it runs the route's statements step
 * by step on the fields and is proved to leave exactly the state the
 * corresponding function of `Accounts` or `Discoveries` describes, so the
 * lemmas proved about those functions hold of the route.
 */
module Store {
  import opened Wrappers
  import opened Images
  import Accounts
  import D = Discoveries

  class Database {
    var users: map<Accounts.UserId, Accounts.User>
    var nextUserId: Accounts.UserId
    var discoveries: seq<D.DiscoveryRow>
    var nextDiscoveryId: nat
    var photos: seq<D.PhotoRow>
    var nextPhotoId: nat

    /** The discoveries and photos tables as one value. */
    function State(): D.Tables
      reads this
    {
      D.Tables(discoveries, nextDiscoveryId, photos, nextPhotoId)
    }

    /** The schema's constraints: unique usernames, one discovery per (user, bird), keys and foreign keys. */
    ghost predicate Valid()
      reads this
    {
      Accounts.UsersValid(users, nextUserId) && D.Valid(State())
    }

    /** Empty tables; AUTOINCREMENT hands out 1 first. */
    constructor ()
      ensures Valid()
      ensures users == map[] && nextUserId == 1
      ensures State() == D.Tables([], 1, [], 1)
    {
      users := map[];
      nextUserId := 1;
      discoveries := [];
      nextDiscoveryId := 1;
      photos := [];
      nextPhotoId := 1;
    }

    /** `register`: the guards, then the INSERT, refused when the username is taken. */
    method Register(username: Option<string>, password: Option<string>, hash: string -> string) returns (status: nat)
      requires Valid()
      modifies this
      ensures Valid()
      ensures var r := Accounts.Register(old(users), old(nextUserId), username, password, hash);
        status == r.status && users == r.users && nextUserId == r.nextUserId
      ensures State() == old(State())
    {
      Accounts.RegisterKeepsUsersValid(users, nextUserId, username, password, hash);
      if Accounts.ValidateRegistration(username, password).Some? {
        return Accounts.StatusBadRequest;
      }
      if Accounts.UsernameTaken(users, username.value) {
        return Accounts.StatusBadRequest;
      }
      users := users[nextUserId := Accounts.User(username.value, hash(password.value), Accounts.DefaultTheme, false, None)];
      nextUserId := nextUserId + 1;
      status := Accounts.StatusOk;
    }

    /** `update_theme`: the allow-list check, then the UPDATE of the session's row. */
    method UpdateTheme(session: Option<Accounts.UserId>, theme: Option<string>) returns (status: nat)
      requires Valid()
      modifies this
      ensures Valid()
      ensures var r := Accounts.UpdateTheme(old(users), session, theme);
        status == r.status && users == r.users
      ensures nextUserId == old(nextUserId) && State() == old(State())
    {
      Accounts.UpdateThemeKeepsUsersValid(users, nextUserId, session, theme);
      if session.None? {
        return Accounts.StatusUnauthorized;
      }
      if !Accounts.ThemeAllowed(theme) {
        return Accounts.StatusBadRequest;
      }
      var id := session.value;
      if id in users {
        users := users[id := users[id].(theme := theme.value)];
      }
      status := Accounts.StatusOk;
    }

    /** `get_share_token`: return the stored token, or store `candidate` (the route's uuid4) and return it. */
    method GetShareToken(session: Option<Accounts.UserId>, candidate: string) returns (status: nat, token: Option<string>)
      requires Valid()
      modifies this
      ensures Valid()
      ensures var r := Accounts.GetShareToken(old(users), session, candidate);
        status == r.status && token == r.token && users == r.users
      ensures nextUserId == old(nextUserId) && State() == old(State())
    {
      Accounts.ShareTokenKeepsUsersValid(users, nextUserId, session, candidate);
      if session.None? {
        return Accounts.StatusUnauthorized, None;
      }
      var id := session.value;
      if id in users && Accounts.Present(users[id].shareToken) {
        return Accounts.StatusOk, users[id].shareToken;
      }
      if id in users {
        if Accounts.TokenHeldByOther(users, id, candidate) {
          return Accounts.StatusServerError, None;
        }
        users := users[id := users[id].(shareToken := Some(candidate))];
      }
      status, token := Accounts.StatusOk, Some(candidate);
    }

    /**
     * `save_discoveries`: 401 without a session, 400 for a missing or empty
     * request; otherwise, for each bird of the request in order, find or
     * create its discovery, delete its photos and insert the submitted ones.
     * The request is a JSON object, so its bird numbers are distinct.
     * The new tables are `SaveAll` of the old, so the `Discoveries` lemmas
     * about `SaveAll` (one row per key, replace semantics, untouched keys)
     * describe what the route did.
     */
    method SaveDiscoveries(session: Option<Accounts.UserId>, data: Option<seq<D.BirdItem>>, codec: Codec) returns (status: nat)
      requires Valid()
      requires data.Some? ==> D.DistinctBirds(data.value)
      modifies this
      ensures Valid()
      ensures users == old(users) && nextUserId == old(nextUserId)
      ensures session.None? ==> status == Accounts.StatusUnauthorized && State() == old(State())
      ensures session.Some? && (data.None? || data.value == []) ==>
        status == Accounts.StatusBadRequest && State() == old(State())
      ensures session.Some? && data.Some? && data.value != [] ==>
        status == Accounts.StatusOk && State() == D.SaveAll(old(State()), session.value, data.value, codec)
    {
      if session.None? {
        return Accounts.StatusUnauthorized;
      }
      if data.None? || data.value == [] {
        return Accounts.StatusBadRequest;
      }
      var user, items := session.value, data.value;
      var i := 0;
      while i < |items|
        invariant 0 <= i <= |items|
        invariant Valid()
        invariant users == old(users) && nextUserId == old(nextUserId)
        invariant State() == D.SaveAll(old(State()), user, items[..i], codec)
      {
        var item := items[i];
        SaveBird(user, item, codec);
        assert items[..i + 1][..i] == items[..i];
        i := i + 1;
      }
      assert items[..|items|] == items;
      status := Accounts.StatusOk;
    }

    /** One pass of the outer loop of `save_discoveries`. */
    method SaveBird(user: Accounts.UserId, item: D.BirdItem, codec: Codec)
      requires Valid()
      modifies this
      ensures Valid()
      ensures users == old(users) && nextUserId == old(nextUserId)
      ensures State() == D.SaveBird(old(State()), user, item, codec)
    {
      ghost var before := State();
      D.SaveBirdValid(before, user, item, codec);
      var found := D.FindIndex(discoveries, user, item.birdNumber);
      var did: nat;
      if found.Some? {
        did := discoveries[found.value].id;
      } else {
        did := nextDiscoveryId;
        discoveries := discoveries + [D.DiscoveryRow(did, user, item.birdNumber)];
        nextDiscoveryId := nextDiscoveryId + 1;
      }
      assert (State(), did) == D.FindOrCreate(before, user, item.birdNumber);
      photos := D.DeletePhotos(photos, did, user);
      if item.photos.Some? {
        InsertPhotos(did, user, item.birdNumber, item.photos.value, codec);
      }
    }

    /** The inner loop of `save_discoveries`: one INSERT per submitted photo with a truthy `photo`. */
    method InsertPhotos(did: nat, user: Accounts.UserId, bird: string, subs: seq<D.SubmittedPhoto>, codec: Codec)
      modifies this
      ensures users == old(users) && nextUserId == old(nextUserId)
      ensures State() == D.InsertSubmitted(old(State()), did, user, bird, subs, codec)
    {
      ghost var base := State();
      for j := 0 to |subs|
        invariant users == old(users) && nextUserId == old(nextUserId)
        invariant State() == D.InsertSubmitted(base, did, user, bird, subs[..j], codec)
      {
        var s := subs[j];
        if D.Keep(s) {
          photos := photos + [D.PhotoRow(nextPhotoId, did, user, bird, D.ToStored(s, codec))];
          nextPhotoId := nextPhotoId + 1;
        }
        assert subs[..j + 1][..j] == subs[..j];
      }
      assert subs[..|subs|] == subs;
    }
  }
}
