/**
 * The `discoveries` and `photos` tables and what `save_discoveries` does to
 * them, as functions on their contents. Each table is the sequence of its rows
 * in insertion order (AUTOINCREMENT ids grow along it) with its id counter.
 * Every SQL statement of the route is one function here; the route's two loops
 * are the folds `SaveAll` and `InsertSubmitted`, which the method
 * `Store.Database.SaveDiscoveries` runs step by step.
 */
module Discoveries {
  import opened Wrappers
  import opened Images
  import opened Accounts

  /** A row of `discoveries`; (user_id, bird_number) is declared UNIQUE. */
  datatype DiscoveryRow = DiscoveryRow(id: nat, userId: UserId, birdNumber: string)

  /** The stored columns of a photo row. */
  datatype StoredPhoto = StoredPhoto(
    photoData: string,
    thumbnail: Option<string>,
    fileSize: nat,
    location: string,
    city: string,
    region: string,
    country: string,
    coordinates: string,
    date: string,
    sex: string,
    note: string)

  /** A row of `photos`; `userId` and `birdNumber` repeat those of its discovery. */
  datatype PhotoRow = PhotoRow(id: nat, discoveryId: nat, userId: UserId, birdNumber: string, photo: StoredPhoto)

  datatype Tables = Tables(
    discoveries: seq<DiscoveryRow>,
    nextDiscoveryId: nat,
    photos: seq<PhotoRow>,
    nextPhotoId: nat)

  /**
   * One element of a bird's `photos` list in the request. `photo` is None when
   * the key is missing or null; `hasId` says whether an `id` key is present;
   * the other fields hold what `photo_data.get(name, '')` yields.
   */
  datatype SubmittedPhoto = SubmittedPhoto(
    photo: Option<string>,
    hasId: bool,
    thumbnail: Option<string>,
    location: string,
    city: string,
    region: string,
    country: string,
    coordinates: string,
    date: string,
    sex: string,
    note: string)

  /** One `bird_number: bird_data` item of the request; `photos` is None when absent or not a list. */
  datatype BirdItem = BirdItem(birdNumber: string, photos: Option<seq<SubmittedPhoto>>)

  // ---------------------------------------------------------------------------
  // Table invariants
  // ---------------------------------------------------------------------------

  predicate SameKey(d: DiscoveryRow, user: UserId, bird: string) {
    d.userId == user && d.birdNumber == bird
  }

  /** UNIQUE(user_id, bird_number). */
  ghost predicate KeysUnique(ds: seq<DiscoveryRow>) {
    forall i, j :: 0 <= i < j < |ds| ==> !SameKey(ds[j], ds[i].userId, ds[i].birdNumber)
  }

  /** The primary key, and AUTOINCREMENT never handing out an id twice. */
  ghost predicate DiscoveryIdsValid(ds: seq<DiscoveryRow>, nextId: nat) {
    && (forall i, j :: 0 <= i < j < |ds| ==> ds[i].id != ds[j].id)
    && (forall i :: 0 <= i < |ds| ==> ds[i].id < nextId)
  }

  /** Photo ids grow with insertion order. */
  ghost predicate PhotoIdsIncreasing(ps: seq<PhotoRow>) {
    forall i, j :: 0 <= i < j < |ps| ==> ps[i].id < ps[j].id
  }

  /** Photo ids grow with insertion order and stay below the counter. */
  ghost predicate PhotoIdsValid(ps: seq<PhotoRow>, nextId: nat) {
    && PhotoIdsIncreasing(ps)
    && (forall i :: 0 <= i < |ps| ==> ps[i].id < nextId)
  }

  /** The foreign key discovery_id, with the discovery's user and bird repeated. */
  ghost predicate PhotosReferToDiscoveries(ps: seq<PhotoRow>, ds: seq<DiscoveryRow>) {
    forall p :: p in ps ==> DiscoveryRow(p.discoveryId, p.userId, p.birdNumber) in ds
  }

  ghost predicate Valid(t: Tables) {
    && KeysUnique(t.discoveries)
    && DiscoveryIdsValid(t.discoveries, t.nextDiscoveryId)
    && PhotoIdsValid(t.photos, t.nextPhotoId)
    && PhotosReferToDiscoveries(t.photos, t.discoveries)
  }

  // ---------------------------------------------------------------------------
  // The SQL statements of save_discoveries
  // ---------------------------------------------------------------------------

  /** `SELECT id FROM discoveries WHERE user_id = ? AND bird_number = ?`, as the position of the first match. */
  function FindIndex(ds: seq<DiscoveryRow>, user: UserId, bird: string): (r: Option<nat>)
    ensures r.Some? ==> r.value < |ds| && SameKey(ds[r.value], user, bird)
    ensures r.Some? ==> forall j :: 0 <= j < r.value ==> !SameKey(ds[j], user, bird)
    ensures r.None? ==> forall j :: 0 <= j < |ds| ==> !SameKey(ds[j], user, bird)
  {
    if ds == [] then None
    else if SameKey(ds[0], user, bird) then Some(0)
    else match FindIndex(ds[1..], user, bird)
      case None => None
      case Some(i) => Some(i + 1)
  }

  /** The id of the (user, bird) discovery, if there is one. */
  function DiscoveryIdOf(ds: seq<DiscoveryRow>, user: UserId, bird: string): Option<nat> {
    match FindIndex(ds, user, bird)
    case None => None
    case Some(i) => Some(ds[i].id)
  }

  predicate Owned(p: PhotoRow, did: nat, user: UserId) {
    p.discoveryId == did && p.userId == user
  }

  /** `DELETE FROM photos WHERE discovery_id = ? AND user_id = ?`. */
  function DeletePhotos(ps: seq<PhotoRow>, did: nat, user: UserId): (r: seq<PhotoRow>)
    ensures forall p :: p in r <==> p in ps && !Owned(p, did, user)
    ensures PhotoIdsIncreasing(ps) ==> PhotoIdsIncreasing(r)
  {
    if ps == [] then []
    else
      var rest := DeletePhotos(ps[1..], did, user);
      if Owned(ps[0], did, user) then rest
      else
        assert PhotoIdsIncreasing(ps) ==> forall p :: p in rest ==> ps[0].id < p.id by {
          if PhotoIdsIncreasing(ps) {
            forall p | p in rest ensures ps[0].id < p.id {
              var k :| 0 <= k < |ps[1..]| && ps[1..][k] == p;
              assert ps[k + 1] == p;
            }
          }
        }
        assert forall j :: 0 < j < |[ps[0]] + rest| ==> ([ps[0]] + rest)[j] in rest;
        [ps[0]] + rest
  }

  /** What a submitted photo needs to be saved: a truthy `photo`. */
  predicate Keep(p: SubmittedPhoto) {
    p.photo.Some? && p.photo.value != ""
  }

  /**
   * The columns the INSERT writes for a kept photo: a photo without `id` is
   * new and goes through `compress_image`; one with an `id` is stored as sent,
   * with the sent thumbnail and a file size of 0.
   */
  function ToStored(p: SubmittedPhoto, codec: Codec): (r: StoredPhoto)
    requires Keep(p)
    ensures p.hasId ==> r.photoData == p.photo.value && r.thumbnail == p.thumbnail && r.fileSize == 0
    ensures !p.hasId ==>
      var c := CompressImage(p.photo.value, codec);
      r.photoData == c.full && r.thumbnail == c.thumbnail && r.fileSize == c.size
    ensures r.location == p.location && r.city == p.city && r.region == p.region && r.country == p.country
    ensures r.coordinates == p.coordinates && r.date == p.date && r.sex == p.sex && r.note == p.note
  {
    if !p.hasId then
      var c := CompressImage(p.photo.value, codec);
      StoredPhoto(c.full, c.thumbnail, c.size, p.location, p.city, p.region, p.country, p.coordinates, p.date, p.sex, p.note)
    else
      StoredPhoto(p.photo.value, p.thumbnail, 0, p.location, p.city, p.region, p.country, p.coordinates, p.date, p.sex, p.note)
  }

  /** The inner loop: one INSERT per kept photo, in list order, each taking the next photo id. */
  function InsertSubmitted(t: Tables, did: nat, user: UserId, bird: string, subs: seq<SubmittedPhoto>, codec: Codec): (r: Tables)
    ensures r.discoveries == t.discoveries && r.nextDiscoveryId == t.nextDiscoveryId
    ensures r.nextPhotoId >= t.nextPhotoId
  {
    if subs == [] then t
    else
      var t' := InsertSubmitted(t, did, user, bird, subs[..|subs| - 1], codec);
      var s := subs[|subs| - 1];
      if Keep(s) then
        var row := PhotoRow(t'.nextPhotoId, did, user, bird, ToStored(s, codec));
        t'.(photos := t'.photos + [row], nextPhotoId := t'.nextPhotoId + 1)
      else t'
  }

  /** Find the discovery or INSERT it with the next id; returns the tables and the discovery id. */
  function FindOrCreate(t: Tables, user: UserId, bird: string): (Tables, nat) {
    match FindIndex(t.discoveries, user, bird)
    case Some(i) => (t, t.discoveries[i].id)
    case None =>
      var row := DiscoveryRow(t.nextDiscoveryId, user, bird);
      (t.(discoveries := t.discoveries + [row], nextDiscoveryId := t.nextDiscoveryId + 1), t.nextDiscoveryId)
  }

  /** One iteration of the outer loop: find or create, delete the old photos, insert the submitted ones. */
  function SaveBird(t: Tables, user: UserId, item: BirdItem, codec: Codec): Tables {
    var found := FindOrCreate(t, user, item.birdNumber);
    var t1, did := found.0, found.1;
    var t2 := t1.(photos := DeletePhotos(t1.photos, did, user));
    match item.photos
    case None => t2
    case Some(subs) => InsertSubmitted(t2, did, user, item.birdNumber, subs, codec)
  }

  /** The outer loop over the request's items, in order. */
  function SaveAll(t: Tables, user: UserId, items: seq<BirdItem>, codec: Codec): Tables {
    if items == [] then t
    else SaveBird(SaveAll(t, user, items[..|items| - 1], codec), user, items[|items| - 1], codec)
  }

  // ---------------------------------------------------------------------------
  // Views stated independently of the loops
  // ---------------------------------------------------------------------------

  /** The photos of discovery `did` owned by `user`, in table order. */
  function PhotosOf(ps: seq<PhotoRow>, did: nat, user: UserId): seq<StoredPhoto> {
    if ps == [] then []
    else (if Owned(ps[0], did, user) then [ps[0].photo] else []) + PhotosOf(ps[1..], did, user)
  }

  /** What the user's (user, bird) discovery holds: None when there is no such discovery. */
  function BirdPhotos(t: Tables, user: UserId, bird: string): Option<seq<StoredPhoto>> {
    match DiscoveryIdOf(t.discoveries, user, bird)
    case None => None
    case Some(did) => Some(PhotosOf(t.photos, did, user))
  }

  /** The submitted photos that have a truthy `photo`, in submission order, as they are stored. */
  function StoredPhotos(subs: seq<SubmittedPhoto>, codec: Codec): seq<StoredPhoto> {
    if subs == [] then []
    else (if Keep(subs[0]) then [ToStored(subs[0], codec)] else []) + StoredPhotos(subs[1..], codec)
  }

  /** What saving `item` should leave in its discovery. */
  function Submitted(item: BirdItem, codec: Codec): seq<StoredPhoto> {
    match item.photos
    case None => []
    case Some(subs) => StoredPhotos(subs, codec)
  }

  /** The last item of the request for bird `k` (a JSON object keeps the last of duplicate keys). */
  function LastFor(items: seq<BirdItem>, k: string): (r: Option<BirdItem>)
    ensures r.Some? ==> r.value.birdNumber == k
    ensures r.None? <==> forall i :: 0 <= i < |items| ==> items[i].birdNumber != k
    ensures r.Some? ==>
      exists i :: 0 <= i < |items| && items[i] == r.value && forall j :: i < j < |items| ==> items[j].birdNumber != k
  {
    if items == [] then None
    else if items[|items| - 1].birdNumber == k then Some(items[|items| - 1])
    else
      var front := items[..|items| - 1];
      var r := LastFor(front, k);
      if r.Some? then LastOccurrenceExtends(items, k, r.value); r else r
  }

  /** The last occurrence of `k` before the final item stays the last one when that item is another bird. */
  lemma LastOccurrenceExtends(items: seq<BirdItem>, k: string, x: BirdItem)
    requires items != [] && items[|items| - 1].birdNumber != k
    requires var front := items[..|items| - 1];
      exists i :: 0 <= i < |front| && front[i] == x && forall j :: i < j < |front| ==> front[j].birdNumber != k
    ensures exists i :: 0 <= i < |items| && items[i] == x && forall j :: i < j < |items| ==> items[j].birdNumber != k
  {
    var front := items[..|items| - 1];
    var i :| 0 <= i < |front| && front[i] == x && forall j :: i < j < |front| ==> front[j].birdNumber != k;
    forall j | i < j < |items|
      ensures items[j].birdNumber != k
    {
      if j < |front| {
        assert items[j] == front[j];
      }
    }
    assert items[i] == x;
  }

  /** A bird present in a request without its last item is present in the whole request. */
  lemma LastForGrows(items: seq<BirdItem>, k: string)
    requires items != [] && LastFor(items[..|items| - 1], k).Some?
    ensures LastFor(items, k).Some?
  {
  }

  /**
   * The items of a JSON object: `json.loads` keeps one entry per key, so the
   * bird numbers of a request are pairwise distinct.
   */
  predicate DistinctBirds(items: seq<BirdItem>) {
    forall i, j :: 0 <= i < j < |items| ==> items[i].birdNumber != items[j].birdNumber
  }

  /** With distinct keys the item chosen for a bird is simply the request's item for that bird. */
  lemma ItemOfDistinct(items: seq<BirdItem>, i: nat)
    requires DistinctBirds(items) && i < |items|
    ensures LastFor(items, items[i].birdNumber) == Some(items[i])
  {
    var r := LastFor(items, items[i].birdNumber);
    var m :| 0 <= m < |items| && items[m] == r.value && forall j :: m < j < |items| ==> items[j].birdNumber != items[i].birdNumber;
  }

  // ---------------------------------------------------------------------------
  // Finding a discovery
  // ---------------------------------------------------------------------------

  lemma {:induction false} FindIndexAppend(ds: seq<DiscoveryRow>, x: DiscoveryRow, user: UserId, bird: string)
    ensures FindIndex(ds + [x], user, bird) ==
      if FindIndex(ds, user, bird).Some? then FindIndex(ds, user, bird)
      else if SameKey(x, user, bird) then Some(|ds|) else None
  {
    if ds != [] {
      assert (ds + [x])[1..] == ds[1..] + [x];
      FindIndexAppend(ds[1..], x, user, bird);
    }
  }

  /** Under the UNIQUE constraint the lookup of a row's key finds that row. */
  lemma FindIndexOfRow(ds: seq<DiscoveryRow>, i: nat)
    requires KeysUnique(ds) && i < |ds|
    ensures FindIndex(ds, ds[i].userId, ds[i].birdNumber) == Some(i)
  {
  }

  /** Two keys that find the same discovery id are the same key. */
  lemma DiscoveryIdInjective(ds: seq<DiscoveryRow>, nextId: nat, u1: UserId, b1: string, u2: UserId, b2: string)
    requires DiscoveryIdsValid(ds, nextId)
    requires DiscoveryIdOf(ds, u1, b1).Some? && DiscoveryIdOf(ds, u1, b1) == DiscoveryIdOf(ds, u2, b2)
    ensures u1 == u2 && b1 == b2
  {
    var i, j := FindIndex(ds, u1, b1).value, FindIndex(ds, u2, b2).value;
    assert ds[i].id == ds[j].id;
  }

  /** What find-or-create leaves behind: the key has exactly one row, reused if it existed. */
  lemma FindOrCreateFacts(t: Tables, user: UserId, bird: string)
    requires Valid(t)
    ensures var t1, did := FindOrCreate(t, user, bird).0, FindOrCreate(t, user, bird).1;
      && t1.photos == t.photos && t1.nextPhotoId == t.nextPhotoId
      && KeysUnique(t1.discoveries)
      && DiscoveryIdsValid(t1.discoveries, t1.nextDiscoveryId)
      && PhotosReferToDiscoveries(t1.photos, t1.discoveries)
      && DiscoveryRow(did, user, bird) in t1.discoveries
      && DiscoveryIdOf(t1.discoveries, user, bird) == Some(did)
      && t.discoveries <= t1.discoveries
      && (DiscoveryIdOf(t.discoveries, user, bird).Some? ==> t1 == t)
      && (DiscoveryIdOf(t.discoveries, user, bird).None? ==>
            t1.discoveries == t.discoveries + [DiscoveryRow(t.nextDiscoveryId, user, bird)])
  {
    var t1, did := FindOrCreate(t, user, bird).0, FindOrCreate(t, user, bird).1;
    var row := DiscoveryRow(t.nextDiscoveryId, user, bird);
    match FindIndex(t.discoveries, user, bird)
    case Some(i) =>
      assert t1.discoveries[i] == DiscoveryRow(did, user, bird);
    case None =>
      FindIndexAppend(t.discoveries, row, user, bird);
      assert t1.discoveries[|t.discoveries|] == row;
      assert forall p :: p in t1.photos ==> DiscoveryRow(p.discoveryId, p.userId, p.birdNumber) in t1.discoveries by {
        forall p | p in t1.photos ensures DiscoveryRow(p.discoveryId, p.userId, p.birdNumber) in t1.discoveries {
          assert DiscoveryRow(p.discoveryId, p.userId, p.birdNumber) in t.discoveries;
        }
      }
  }

  /** Find-or-create for one key does not change what any other key finds. */
  lemma FindOrCreateOther(t: Tables, user: UserId, bird: string, u: UserId, b: string)
    requires !(u == user && b == bird)
    ensures DiscoveryIdOf(FindOrCreate(t, user, bird).0.discoveries, u, b) == DiscoveryIdOf(t.discoveries, u, b)
  {
    if FindIndex(t.discoveries, user, bird).None? {
      var row := DiscoveryRow(t.nextDiscoveryId, user, bird);
      FindIndexAppend(t.discoveries, row, u, b);
      if FindIndex(t.discoveries, u, b).Some? {
        var i := FindIndex(t.discoveries, u, b).value;
        assert (t.discoveries + [row])[i] == t.discoveries[i];
      }
    }
  }

  // ---------------------------------------------------------------------------
  // Deleting and inserting photos
  // ---------------------------------------------------------------------------

  lemma {:induction false} PhotosOfAppend(ps: seq<PhotoRow>, x: PhotoRow, did: nat, user: UserId)
    ensures PhotosOf(ps + [x], did, user) == PhotosOf(ps, did, user) + (if Owned(x, did, user) then [x.photo] else [])
  {
    if ps != [] {
      assert (ps + [x])[1..] == ps[1..] + [x];
      PhotosOfAppend(ps[1..], x, did, user);
    }
  }

  /** After the DELETE the discovery has no photos; every other discovery keeps its own. */
  lemma {:induction false} PhotosOfDelete(ps: seq<PhotoRow>, did: nat, user: UserId, did': nat, u': UserId)
    ensures PhotosOf(DeletePhotos(ps, did, user), did', u') ==
      if did' == did && u' == user then [] else PhotosOf(ps, did', u')
  {
    if ps != [] {
      PhotosOfDelete(ps[1..], did, user, did', u');
    }
  }

  lemma {:induction false} StoredPhotosAppend(subs: seq<SubmittedPhoto>, s: SubmittedPhoto, codec: Codec)
    ensures StoredPhotos(subs + [s], codec) == StoredPhotos(subs, codec) + (if Keep(s) then [ToStored(s, codec)] else [])
  {
    if subs != [] {
      var head := if Keep(subs[0]) then [ToStored(subs[0], codec)] else [];
      var last := if Keep(s) then [ToStored(s, codec)] else [];
      assert (subs + [s])[0] == subs[0];
      assert (subs + [s])[1..] == subs[1..] + [s];
      StoredPhotosAppend(subs[1..], s, codec);
      assert StoredPhotos(subs + [s], codec) == head + (StoredPhotos(subs[1..], codec) + last);
      assert head + (StoredPhotos(subs[1..], codec) + last) == (head + StoredPhotos(subs[1..], codec)) + last;
    }
  }

  /** The inserts append exactly the kept photos, in order, to the discovery they belong to and to no other. */
  lemma {:induction false} InsertSubmittedView(t: Tables, did: nat, user: UserId, bird: string,
                                               subs: seq<SubmittedPhoto>, codec: Codec, did': nat, u': UserId)
    ensures PhotosOf(InsertSubmitted(t, did, user, bird, subs, codec).photos, did', u') ==
      PhotosOf(t.photos, did', u') + (if did' == did && u' == user then StoredPhotos(subs, codec) else [])
  {
    if subs != [] {
      var front, s := subs[..|subs| - 1], subs[|subs| - 1];
      assert subs == front + [s];
      InsertSubmittedView(t, did, user, bird, front, codec, did', u');
      StoredPhotosAppend(front, s, codec);
      var t' := InsertSubmitted(t, did, user, bird, front, codec);
      if Keep(s) {
        PhotosOfAppend(t'.photos, PhotoRow(t'.nextPhotoId, did, user, bird, ToStored(s, codec)), did', u');
      }
    }
  }

  /** The inserts keep photo ids increasing and every photo pointing at its discovery. */
  lemma {:induction false} InsertSubmittedValid(t: Tables, did: nat, user: UserId, bird: string,
                                                subs: seq<SubmittedPhoto>, codec: Codec)
    requires PhotoIdsValid(t.photos, t.nextPhotoId)
    requires PhotosReferToDiscoveries(t.photos, t.discoveries)
    requires DiscoveryRow(did, user, bird) in t.discoveries
    ensures var r := InsertSubmitted(t, did, user, bird, subs, codec);
      PhotoIdsValid(r.photos, r.nextPhotoId) && PhotosReferToDiscoveries(r.photos, r.discoveries)
  {
    if subs != [] {
      var front := subs[..|subs| - 1];
      InsertSubmittedValid(t, did, user, bird, front, codec);
    }
  }

  // ---------------------------------------------------------------------------
  // One bird
  // ---------------------------------------------------------------------------

  lemma SaveBirdValid(t: Tables, user: UserId, item: BirdItem, codec: Codec)
    requires Valid(t)
    ensures Valid(SaveBird(t, user, item, codec))
    ensures t.discoveries <= SaveBird(t, user, item, codec).discoveries
  {
    FindOrCreateFacts(t, user, item.birdNumber);
    var found := FindOrCreate(t, user, item.birdNumber);
    var t1, did := found.0, found.1;
    var t2 := t1.(photos := DeletePhotos(t1.photos, did, user));
    assert forall i :: 0 <= i < |t2.photos| ==> t2.photos[i] in t1.photos;
    if item.photos.Some? {
      InsertSubmittedValid(t2, did, user, item.birdNumber, item.photos.value, codec);
    }
  }

  /**
   * What one save does to the tables: the discovery rows are those of
   * find-or-create, the bird's discovery holds exactly the submitted photos,
   * and every other discovery keeps its photos.
   */
  lemma SaveBirdView(t: Tables, user: UserId, item: BirdItem, codec: Codec, did': nat, u': UserId)
    ensures var found := FindOrCreate(t, user, item.birdNumber);
      && SaveBird(t, user, item, codec).discoveries == found.0.discoveries
      && PhotosOf(SaveBird(t, user, item, codec).photos, did', u') ==
           if did' == found.1 && u' == user then Submitted(item, codec) else PhotosOf(t.photos, did', u')
  {
    var found := FindOrCreate(t, user, item.birdNumber);
    var t1, did := found.0, found.1;
    var t2 := t1.(photos := DeletePhotos(t1.photos, did, user));
    PhotosOfDelete(t1.photos, did, user, did', u');
    match item.photos
    case None =>
      assert SaveBird(t, user, item, codec) == t2;
    case Some(subs) =>
      InsertSubmittedView(t2, did, user, item.birdNumber, subs, codec, did', u');
      assert SaveBird(t, user, item, codec) == InsertSubmitted(t2, did, user, item.birdNumber, subs, codec);
  }

  /** Saving a bird leaves its discovery holding exactly the submitted photos with a truthy `photo`, in order. */
  lemma SaveBirdReplaces(t: Tables, user: UserId, item: BirdItem, codec: Codec)
    requires Valid(t)
    ensures BirdPhotos(SaveBird(t, user, item, codec), user, item.birdNumber) == Some(Submitted(item, codec))
  {
    FindOrCreateFacts(t, user, item.birdNumber);
    SaveBirdView(t, user, item, codec, FindOrCreate(t, user, item.birdNumber).1, user);
  }

  /** The inserts only append photo rows. */
  lemma {:induction false} InsertSubmittedPrefix(t: Tables, did: nat, user: UserId, bird: string,
                                                 subs: seq<SubmittedPhoto>, codec: Codec)
    ensures t.photos <= InsertSubmitted(t, did, user, bird, subs, codec).photos
  {
    if subs != [] {
      InsertSubmittedPrefix(t, did, user, bird, subs[..|subs| - 1], codec);
    }
  }

  /** Two discovery rows with the same id are the same row (the primary key). */
  lemma SameIdSameRow(ds: seq<DiscoveryRow>, nextId: nat, r1: DiscoveryRow, r2: DiscoveryRow)
    requires DiscoveryIdsValid(ds, nextId)
    requires r1 in ds && r2 in ds
    ensures r1.id == r2.id ==> r1 == r2
  {
    var i :| 0 <= i < |ds| && ds[i] == r1;
    var j :| 0 <= j < |ds| && ds[j] == r2;
    assert r1 != r2 ==> i != j;
  }

  /**
   * Saving a bird keeps every photo row of any other (user, bird) key as it
   * was, id included: the DELETE only matches the saved discovery's rows and
   * the INSERTs only append.
   */
  lemma SaveBirdKeepsRows(t: Tables, user: UserId, item: BirdItem, codec: Codec, u: UserId, b: string)
    requires Valid(t)
    requires !(u == user && b == item.birdNumber)
    ensures forall p :: p in t.photos && p.userId == u && p.birdNumber == b ==> p in SaveBird(t, user, item, codec).photos
  {
    FindOrCreateFacts(t, user, item.birdNumber);
    var found := FindOrCreate(t, user, item.birdNumber);
    var t1, did := found.0, found.1;
    var t2 := t1.(photos := DeletePhotos(t1.photos, did, user));
    forall p | p in t.photos && p.userId == u && p.birdNumber == b
      ensures p in t2.photos
    {
      SameIdSameRow(t1.discoveries, t1.nextDiscoveryId, DiscoveryRow(p.discoveryId, p.userId, p.birdNumber),
                    DiscoveryRow(did, user, item.birdNumber));
    }
    if item.photos.Some? {
      InsertSubmittedPrefix(t2, did, user, item.birdNumber, item.photos.value, codec);
    }
  }

  /** Saving a bird changes neither the discovery nor the photos of any other (user, bird) key. */
  lemma SaveBirdOther(t: Tables, user: UserId, item: BirdItem, codec: Codec, u: UserId, b: string)
    requires Valid(t)
    requires !(u == user && b == item.birdNumber)
    ensures DiscoveryIdOf(SaveBird(t, user, item, codec).discoveries, u, b) == DiscoveryIdOf(t.discoveries, u, b)
    ensures BirdPhotos(SaveBird(t, user, item, codec), u, b) == BirdPhotos(t, u, b)
    ensures forall p :: p in t.photos && p.userId == u && p.birdNumber == b ==> p in SaveBird(t, user, item, codec).photos
  {
    SaveBirdKeepsRows(t, user, item, codec, u, b);
    FindOrCreateFacts(t, user, item.birdNumber);
    FindOrCreateOther(t, user, item.birdNumber, u, b);
    var found := FindOrCreate(t, user, item.birdNumber);
    match DiscoveryIdOf(t.discoveries, u, b)
    case None =>
      SaveBirdView(t, user, item, codec, 0, u);
    case Some(did') =>
      if did' == found.1 && u == user {
        DiscoveryIdInjective(found.0.discoveries, found.0.nextDiscoveryId, u, b, user, item.birdNumber);
      }
      SaveBirdView(t, user, item, codec, did', u);
  }

  // ---------------------------------------------------------------------------
  // The whole request
  // ---------------------------------------------------------------------------

  /**
   * Saving keeps every table invariant, in particular one discovery row per
   * (user, bird_number), and only ever appends discovery rows: each new row
   * belongs to the saving user and to a bird of the request.
   */
  lemma {:induction false} SaveAllValid(t: Tables, user: UserId, items: seq<BirdItem>, codec: Codec)
    requires Valid(t)
    ensures var r := SaveAll(t, user, items, codec);
      && Valid(r)
      && t.discoveries <= r.discoveries
      && (forall i :: |t.discoveries| <= i < |r.discoveries| ==>
            r.discoveries[i].userId == user && LastFor(items, r.discoveries[i].birdNumber).Some?)
  {
    if items != [] {
      var front, item := items[..|items| - 1], items[|items| - 1];
      SaveAllValid(t, user, front, codec);
      var t0 := SaveAll(t, user, front, codec);
      var r := SaveBird(t0, user, item, codec);
      SaveBirdValid(t0, user, item, codec);
      FindOrCreateFacts(t0, user, item.birdNumber);
      forall i | |t.discoveries| <= i < |r.discoveries|
        ensures r.discoveries[i].userId == user && LastFor(items, r.discoveries[i].birdNumber).Some?
      {
        if i < |t0.discoveries| {
          assert r.discoveries[i] == t0.discoveries[i];
          LastForGrows(items, r.discoveries[i].birdNumber);
        } else {
          assert r.discoveries[i] == DiscoveryRow(t0.nextDiscoveryId, user, item.birdNumber);
        }
      }
    }
  }

  /**
   * Every bird of the request ends up holding exactly the submitted photos
   * with a truthy `photo`, in submission order, of its last item; all of its
   * older photos are gone.
   */
  lemma {:induction false} SaveAllReplaces(t: Tables, user: UserId, items: seq<BirdItem>, codec: Codec, k: string)
    requires Valid(t)
    requires LastFor(items, k).Some?
    ensures BirdPhotos(SaveAll(t, user, items, codec), user, k) == Some(Submitted(LastFor(items, k).value, codec))
  {
    var front, item := items[..|items| - 1], items[|items| - 1];
    SaveAllValid(t, user, front, codec);
    var t0 := SaveAll(t, user, front, codec);
    if item.birdNumber == k {
      SaveBirdReplaces(t0, user, item, codec);
    } else {
      SaveAllReplaces(t, user, front, codec, k);
      SaveBirdOther(t0, user, item, codec, user, k);
    }
  }

  /** Keys of other users, and the user's birds absent from the request, are untouched. */
  lemma {:induction false} SaveAllUntouched(t: Tables, user: UserId, items: seq<BirdItem>, codec: Codec, u: UserId, b: string)
    requires Valid(t)
    requires u != user || LastFor(items, b).None?
    ensures DiscoveryIdOf(SaveAll(t, user, items, codec).discoveries, u, b) == DiscoveryIdOf(t.discoveries, u, b)
    ensures BirdPhotos(SaveAll(t, user, items, codec), u, b) == BirdPhotos(t, u, b)
    ensures forall p :: p in t.photos && p.userId == u && p.birdNumber == b ==> p in SaveAll(t, user, items, codec).photos
  {
    if items != [] {
      var front, item := items[..|items| - 1], items[|items| - 1];
      SaveAllValid(t, user, front, codec);
      SaveAllUntouched(t, user, front, codec, u, b);
      SaveBirdOther(SaveAll(t, user, front, codec), user, item, codec, u, b);
    }
  }

  /** A bird that already had a discovery keeps that same discovery row (same id) after saving. */
  lemma {:induction false} SaveAllReusesDiscovery(t: Tables, user: UserId, items: seq<BirdItem>, codec: Codec, k: string)
    requires Valid(t)
    requires DiscoveryIdOf(t.discoveries, user, k).Some?
    ensures DiscoveryIdOf(SaveAll(t, user, items, codec).discoveries, user, k) == DiscoveryIdOf(t.discoveries, user, k)
  {
    if items != [] {
      var front, item := items[..|items| - 1], items[|items| - 1];
      SaveAllValid(t, user, front, codec);
      SaveAllReusesDiscovery(t, user, front, codec, k);
      var t0 := SaveAll(t, user, front, codec);
      if item.birdNumber == k {
        FindOrCreateFacts(t0, user, k);
      } else {
        SaveBirdOther(t0, user, item, codec, user, k);
      }
    }
  }
}
