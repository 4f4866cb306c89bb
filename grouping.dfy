/**
 * The loop that `get_discoveries`, `get_discoveries_light` and
 * `get_shared_profile` run over the rows of
 * `discoveries LEFT JOIN photos ... ORDER BY d.bird_number, p.created_at`:
 * it folds them into a dictionary bird_number -> {photos: [...]}, creating
 * the entry on a bird's first row and appending the row's photo when there is
 * one. Python dictionaries keep insertion order, so the result is an ordered
 * dictionary: the keys in insertion order beside the map.
 */
module Grouping {
  import opened Wrappers
  import Accounts

  /** The photo columns of a joined row (coordinates kept as the stored JSON text). */
  datatype PhotoColumns = PhotoColumns(
    id: int,
    photoData: string,
    thumbnail: Option<string>,
    location: string,
    city: string,
    region: string,
    country: string,
    coordinates: string,
    date: string,
    sex: string,
    note: string)

  /** One joined row; `photo` is `None` when the LEFT JOIN found no photo (all photo columns NULL). */
  datatype JoinedRow = JoinedRow(birdNumber: string, discoveredAt: string, photo: Option<PhotoColumns>)

  /**
   * How a route decides that a row carries a photo: `get_discoveries` and
   * `get_discoveries_light` test `row['photo_id']`, `get_shared_profile`
   * tests `row['photo_data']` (Python truthiness in both cases).
   */
  datatype PhotoTest = ByPhotoId | ByPhotoData

  predicate HasPhoto(row: JoinedRow, test: PhotoTest) {
    && row.photo.Some?
    && match test
       case ByPhotoId => row.photo.value.id != 0
       case ByPhotoData => row.photo.value.photoData != ""
  }

  /** `{'discovered_at': ..., 'photos': [...]}`; the light and shared routes emit only `photos`. */
  datatype Entry = Entry(discoveredAt: string, photos: seq<PhotoColumns>)

  datatype Grouped = Grouped(order: seq<string>, entries: map<string, Entry>)

  /** The keys listed once each, in insertion order, and exactly the map's keys. */
  ghost predicate WellFormed(g: Grouped) {
    && (forall i, j :: 0 <= i < j < |g.order| ==> g.order[i] != g.order[j])
    && (forall k :: k in g.order <==> k in g.entries)
  }

  /** One iteration of the loop body. */
  function AddRow(g: Grouped, row: JoinedRow, test: PhotoTest): Grouped {
    var k := row.birdNumber;
    var g1 := if k in g.entries then g else Grouped(g.order + [k], g.entries[k := Entry(row.discoveredAt, [])]);
    if HasPhoto(row, test) then
      g1.(entries := g1.entries[k := g1.entries[k].(photos := g1.entries[k].photos + [row.photo.value])])
    else g1
  }

  /** The dictionary after the loop has seen `rows`. */
  function GroupAll(rows: seq<JoinedRow>, test: PhotoTest): Grouped {
    if rows == [] then Grouped([], map[])
    else AddRow(GroupAll(rows[..|rows| - 1], test), rows[|rows| - 1], test)
  }

  // ---------------------------------------------------------------------------
  // Reference definitions, stated on the rows directly
  // ---------------------------------------------------------------------------

  /** The distinct bird numbers among the rows. */
  function Birds(rows: seq<JoinedRow>): set<string> {
    set r | r in rows :: r.birdNumber
  }

  /** The photos of bird `k`, in row order. */
  function PhotosFor(rows: seq<JoinedRow>, k: string, test: PhotoTest): seq<PhotoColumns> {
    if rows == [] then []
    else
      var own := if rows[0].birdNumber == k && HasPhoto(rows[0], test) then [rows[0].photo.value] else [];
      own + PhotosFor(rows[1..], k, test)
  }

  /** `discovered_at` of the first row of bird `k`. */
  function FirstDiscoveredAt(rows: seq<JoinedRow>, k: string): string
    requires k in Birds(rows)
  {
    if rows[0].birdNumber == k then rows[0].discoveredAt
    else
      assert k in Birds(rows[1..]) by {
        var r :| r in rows && r.birdNumber == k;
        assert r in rows[1..];
      }
      FirstDiscoveredAt(rows[1..], k)
  }

  /** The number of rows that carry a photo. */
  function PhotoCount(rows: seq<JoinedRow>, test: PhotoTest): nat {
    if rows == [] then 0
    else (if HasPhoto(rows[0], test) then 1 else 0) + PhotoCount(rows[1..], test)
  }

  /** `sum(len(d['photos']) for d in result.values())`, over the keys in insertion order. */
  function SumPhotos(order: seq<string>, entries: map<string, Entry>): nat
    requires forall k :: k in order ==> k in entries
  {
    if order == [] then 0
    else SumPhotos(order[..|order| - 1], entries) + |entries[order[|order| - 1]].photos|
  }

  function TotalPhotos(g: Grouped): nat
    requires forall k :: k in g.order ==> k in g.entries
  {
    SumPhotos(g.order, g.entries)
  }

  // ---------------------------------------------------------------------------
  // The loop and what it computes
  // ---------------------------------------------------------------------------

  /**
   * The grouping loop. Every bird number of the rows is a key exactly once
   * (a bird without photos gets an empty list), each key's photos are that
   * bird's photo rows in row order, and its `discovered_at` is the one of the
   * bird's first row.
   */
  method GroupRows(rows: seq<JoinedRow>, test: PhotoTest) returns (g: Grouped)
    ensures g == GroupAll(rows, test)
    ensures WellFormed(g) && g.entries.Keys == Birds(rows)
    ensures forall k :: k in g.entries ==> g.entries[k].photos == PhotosFor(rows, k, test)
    ensures forall k :: k in g.entries ==> k in Birds(rows) && g.entries[k].discoveredAt == FirstDiscoveredAt(rows, k)
  {
    var order: seq<string> := [];
    var entries: map<string, Entry> := map[];
    for i := 0 to |rows|
      invariant Grouped(order, entries) == GroupAll(rows[..i], test)
    {
      var row := rows[i];
      var birdNum := row.birdNumber;
      if birdNum !in entries {
        order := order + [birdNum];
        entries := entries[birdNum := Entry(row.discoveredAt, [])];
      }
      if HasPhoto(row, test) {
        entries := entries[birdNum := entries[birdNum].(photos := entries[birdNum].photos + [row.photo.value])];
      }
      assert rows[..i + 1][..i] == rows[..i];
    }
    assert rows[..|rows|] == rows;
    g := Grouped(order, entries);
    GroupAllMeaning(rows, test);
  }

  /** What the fold computes, stated on the rows. */
  lemma GroupAllMeaning(rows: seq<JoinedRow>, test: PhotoTest)
    ensures var g := GroupAll(rows, test);
      && WellFormed(g)
      && g.entries.Keys == Birds(rows)
      && (forall k :: k in g.entries ==> g.entries[k].photos == PhotosFor(rows, k, test))
      && (forall k :: k in g.entries ==> k in Birds(rows) && g.entries[k].discoveredAt == FirstDiscoveredAt(rows, k))
      && TotalPhotos(g) == PhotoCount(rows, test)
  {
    GroupAllShape(rows, test);
    GroupAllPhotos(rows, test);
    GroupAllDiscoveredAt(rows, test);
  }

  /** The keys are the rows' bird numbers, listed once each; the total counts the photo rows. */
  lemma {:induction false} GroupAllShape(rows: seq<JoinedRow>, test: PhotoTest)
    ensures var g := GroupAll(rows, test);
      WellFormed(g) && g.entries.Keys == Birds(rows) && TotalPhotos(g) == PhotoCount(rows, test)
  {
    if rows != [] {
      var front, row := rows[..|rows| - 1], rows[|rows| - 1];
      assert rows == front + [row];
      GroupAllShape(front, test);
      var g0 := GroupAll(front, test);
      assert GroupAll(rows, test) == AddRow(g0, row, test);
      AddRowShape(g0, row, test);
      AddRowTotal(g0, row, test);
      PhotoCountAppend(front, row, test);
      BirdsAppend(front, row);
    }
  }

  lemma BirdsAppend(rows: seq<JoinedRow>, row: JoinedRow)
    ensures Birds(rows + [row]) == Birds(rows) + {row.birdNumber}
  {
  }

  /** Each bird's photos are its photo rows, in row order; a bird without any gets []. */
  lemma {:induction false} GroupAllPhotos(rows: seq<JoinedRow>, test: PhotoTest)
    ensures var g := GroupAll(rows, test);
      forall k :: k in g.entries ==> g.entries[k].photos == PhotosFor(rows, k, test)
  {
    if rows != [] {
      var front, row := rows[..|rows| - 1], rows[|rows| - 1];
      assert rows == front + [row];
      GroupAllPhotos(front, test);
      GroupAllShape(front, test);
      var g0 := GroupAll(front, test);
      var g := AddRow(g0, row, test);
      AddRowShape(g0, row, test);
      forall b | b in g.entries
        ensures g.entries[b].photos == PhotosFor(rows, b, test)
      {
        PhotosForAppend(front, row, b, test);
        if b !in g0.entries {
          PhotosForNone(front, b, test);
        }
      }
    }
  }

  /** Each bird's `discovered_at` comes from its first row. */
  lemma {:induction false} GroupAllDiscoveredAt(rows: seq<JoinedRow>, test: PhotoTest)
    ensures var g := GroupAll(rows, test);
      forall k :: k in g.entries ==> k in Birds(rows) && g.entries[k].discoveredAt == FirstDiscoveredAt(rows, k)
  {
    if rows != [] {
      var front, row := rows[..|rows| - 1], rows[|rows| - 1];
      assert rows == front + [row];
      GroupAllDiscoveredAt(front, test);
      GroupAllShape(front, test);
      var g0 := GroupAll(front, test);
      var g := AddRow(g0, row, test);
      AddRowShape(g0, row, test);
      forall b | b in g.entries
        ensures b in Birds(rows) && g.entries[b].discoveredAt == FirstDiscoveredAt(rows, b)
      {
        if b in g0.entries {
          FirstDiscoveredAtAppend(front, row, b);
        } else {
          FirstDiscoveredAtNew(front, row);
        }
      }
    }
  }

  /** One step of the loop keeps the keys listed once and adds the row's bird. */
  lemma AddRowShape(g: Grouped, row: JoinedRow, test: PhotoTest)
    requires WellFormed(g)
    ensures var g' := AddRow(g, row, test);
      && WellFormed(g')
      && g'.entries.Keys == g.entries.Keys + {row.birdNumber}
      && (forall b :: b in g'.entries ==>
            g'.entries[b].photos == (if b in g.entries then g.entries[b].photos else [])
              + (if b == row.birdNumber && HasPhoto(row, test) then [row.photo.value] else []))
      && (forall b :: b in g'.entries ==>
            g'.entries[b].discoveredAt == (if b in g.entries then g.entries[b].discoveredAt else row.discoveredAt))
  {
    var g' := AddRow(g, row, test);
    if row.birdNumber !in g.entries {
      NewKeyTotal(g, row.birdNumber, Entry(row.discoveredAt, []));
    }
    forall b | b in g'.entries
      ensures g'.entries[b].photos == (if b in g.entries then g.entries[b].photos else [])
        + (if b == row.birdNumber && HasPhoto(row, test) then [row.photo.value] else [])
      ensures g'.entries[b].discoveredAt == (if b in g.entries then g.entries[b].discoveredAt else row.discoveredAt)
    {
      AddRowEntry(g, row, test, b);
    }
  }

  /** The entry one step of the loop leaves under key `b`. */
  lemma AddRowEntry(g: Grouped, row: JoinedRow, test: PhotoTest, b: string)
    requires b in AddRow(g, row, test).entries
    ensures var e := AddRow(g, row, test).entries[b];
      && e.photos == (if b in g.entries then g.entries[b].photos else [])
        + (if b == row.birdNumber && HasPhoto(row, test) then [row.photo.value] else [])
      && e.discoveredAt == (if b in g.entries then g.entries[b].discoveredAt else row.discoveredAt)
  {
    if b != row.birdNumber {
      assert AddRow(g, row, test).entries[b] == g.entries[b];
    }
  }

  /** One step of the loop adds the row's photo, if any, to the total. */
  lemma AddRowTotal(g: Grouped, row: JoinedRow, test: PhotoTest)
    requires WellFormed(g)
    ensures WellFormed(AddRow(g, row, test))
    ensures TotalPhotos(AddRow(g, row, test)) == TotalPhotos(g) + (if HasPhoto(row, test) then 1 else 0)
  {
    var k := row.birdNumber;
    var g1 := if k in g.entries then g else Grouped(g.order + [k], g.entries[k := Entry(row.discoveredAt, [])]);
    if k !in g.entries {
      NewKeyTotal(g, k, Entry(row.discoveredAt, []));
    }
    if HasPhoto(row, test) {
      AppendPhotoTotal(g1, k, row.photo.value);
    }
  }

  /** A new key with an empty list (`setdefault`) leaves the total unchanged. */
  lemma NewKeyTotal(g: Grouped, k: string, e: Entry)
    requires WellFormed(g) && k !in g.entries && e.photos == []
    ensures var g1 := Grouped(g.order + [k], g.entries[k := e]);
      WellFormed(g1) && TotalPhotos(g1) == TotalPhotos(g)
  {
    var g1 := Grouped(g.order + [k], g.entries[k := e]);
    SumPhotosOther(g.order, g.entries, k, e);
    assert g1.order[..|g1.order| - 1] == g.order;
  }

  /** Appending one photo to a listed key adds one to the total. */
  lemma AppendPhotoTotal(g: Grouped, k: string, p: PhotoColumns)
    requires WellFormed(g) && k in g.entries
    ensures var g1 := g.(entries := g.entries[k := g.entries[k].(photos := g.entries[k].photos + [p])]);
      WellFormed(g1) && TotalPhotos(g1) == TotalPhotos(g) + 1
  {
    SumPhotosUpdate(g.order, g.entries, k, g.entries[k].(photos := g.entries[k].photos + [p]));
  }

  lemma {:induction false} PhotosForNone(rows: seq<JoinedRow>, k: string, test: PhotoTest)
    requires k !in Birds(rows)
    ensures PhotosFor(rows, k, test) == []
  {
    if rows != [] {
      assert rows[0] in rows;
      assert k !in Birds(rows[1..]) by {
        forall r | r in rows[1..] ensures r.birdNumber != k {
          assert r in rows;
        }
      }
      PhotosForNone(rows[1..], k, test);
    }
  }

  lemma {:induction false} PhotosForAppend(rows: seq<JoinedRow>, row: JoinedRow, k: string, test: PhotoTest)
    ensures PhotosFor(rows + [row], k, test) ==
      PhotosFor(rows, k, test) + (if row.birdNumber == k && HasPhoto(row, test) then [row.photo.value] else [])
  {
    if rows != [] {
      assert (rows + [row])[1..] == rows[1..] + [row];
      PhotosForAppend(rows[1..], row, k, test);
    }
  }

  lemma {:induction false} PhotoCountAppend(rows: seq<JoinedRow>, row: JoinedRow, test: PhotoTest)
    ensures PhotoCount(rows + [row], test) == PhotoCount(rows, test) + (if HasPhoto(row, test) then 1 else 0)
  {
    if rows != [] {
      assert (rows + [row])[1..] == rows[1..] + [row];
      PhotoCountAppend(rows[1..], row, test);
    }
  }

  lemma {:induction false} FirstDiscoveredAtAppend(rows: seq<JoinedRow>, row: JoinedRow, k: string)
    requires k in Birds(rows)
    ensures k in Birds(rows + [row]) && FirstDiscoveredAt(rows + [row], k) == FirstDiscoveredAt(rows, k)
  {
    assert Birds(rows + [row]) == Birds(rows) + {row.birdNumber};
    if rows[0].birdNumber != k {
      assert (rows + [row])[1..] == rows[1..] + [row];
      assert k in Birds(rows[1..]) by {
        var r :| r in rows && r.birdNumber == k;
        assert r in rows[1..];
      }
      FirstDiscoveredAtAppend(rows[1..], row, k);
    }
  }

  lemma {:induction false} FirstDiscoveredAtNew(rows: seq<JoinedRow>, row: JoinedRow)
    requires row.birdNumber !in Birds(rows)
    ensures row.birdNumber in Birds(rows + [row])
    ensures FirstDiscoveredAt(rows + [row], row.birdNumber) == row.discoveredAt
  {
    assert (rows + [row])[|rows|] == row;
    if rows != [] {
      assert rows[0] in rows;
      assert (rows + [row])[1..] == rows[1..] + [row];
      assert row.birdNumber !in Birds(rows[1..]) by {
        forall r | r in rows[1..] ensures r.birdNumber != row.birdNumber {
          assert r in rows;
        }
      }
      FirstDiscoveredAtNew(rows[1..], row);
    }
  }

  /** Changing the entry of a key that is not listed leaves the sum alone. */
  lemma {:induction false} SumPhotosOther(order: seq<string>, entries: map<string, Entry>, k: string, v: Entry)
    requires forall b :: b in order ==> b in entries
    requires k !in order
    ensures SumPhotos(order, entries[k := v]) == SumPhotos(order, entries)
  {
    if order != [] {
      SumPhotosOther(order[..|order| - 1], entries, k, v);
    }
  }

  /** Changing the entry of a key listed once moves the sum by the change in its photo count. */
  lemma {:induction false} SumPhotosUpdate(order: seq<string>, entries: map<string, Entry>, k: string, v: Entry)
    requires forall b :: b in order ==> b in entries
    requires forall i, j :: 0 <= i < j < |order| ==> order[i] != order[j]
    requires k in order
    ensures SumPhotos(order, entries[k := v]) + |entries[k].photos| == SumPhotos(order, entries) + |v.photos|
  {
    var front, last := order[..|order| - 1], order[|order| - 1];
    if last == k {
      assert k !in front;
      SumPhotosOther(front, entries, k, v);
    } else {
      assert k in front by {
        var i :| 0 <= i < |order| && order[i] == k;
        assert i < |order| - 1;
        assert front[i] == k;
      }
      SumPhotosUpdate(front, entries, k, v);
    }
  }

  // ---------------------------------------------------------------------------
  // The shared profile
  // ---------------------------------------------------------------------------

  datatype SharedProfile = SharedProfile(
    username: string,
    memberSince: string,
    theme: string,
    discoveredCount: nat,
    totalPhotos: nat,
    discoveries: Grouped)

  const StatusNotFound: nat := 404

  /** `user['theme'] or 'pokemon'`. */
  function ProfileTheme(theme: string): string {
    if theme != "" then theme else Accounts.DefaultTheme
  }

  /**
   * `get_shared_profile`: 404 when no user holds the token, else that user's
   * name, creation date and theme, the grouped discoveries (photos detected
   * by `photo_data`) and the two counters: `discovered_count` is the number
   * of distinct birds among the rows, `total_photos` the number of rows that
   * carry a photo. `createdAt` stands for the users.created_at column and
   * `rows` for the owner's joined rows.
   */
  method GetSharedProfile(users: map<Accounts.UserId, Accounts.User>, token: string,
                          createdAt: Accounts.UserId -> string, rows: seq<JoinedRow>)
    returns (r: Result<SharedProfile, nat>)
    ensures r.Err? <==> forall id :: !Accounts.HoldsToken(users, id, token)
    ensures r.Err? ==> r.error == StatusNotFound
    ensures r.Ok? ==>
      exists id ::
        && Accounts.HoldsToken(users, id, token)
        && r.value.username == users[id].username
        && r.value.memberSince == createdAt(id)
        && r.value.theme == ProfileTheme(users[id].theme)
    ensures r.Ok? && Accounts.TokensUnique(users) ==>
      forall id :: Accounts.HoldsToken(users, id, token) ==>
        && r.value.username == users[id].username
        && r.value.memberSince == createdAt(id)
        && r.value.theme == ProfileTheme(users[id].theme)
    ensures r.Ok? ==> r.value.discoveredCount == |Birds(rows)|
    ensures r.Ok? ==> r.value.totalPhotos == PhotoCount(rows, ByPhotoData)
    ensures r.Ok? ==> r.value.discoveries == GroupAll(rows, ByPhotoData)
  {
    if !exists id :: id in users && users[id].shareToken == Some(token) {
      return Err(StatusNotFound);
    }
    var id :| id in users && users[id].shareToken == Some(token);
    var g := GroupRows(rows, ByPhotoData);
    GroupAllMeaning(rows, ByPhotoData);
    var user := users[id];
    assert |g.entries| == |Birds(rows)| by {
      assert g.entries.Keys == Birds(rows);
    }
    r := Ok(SharedProfile(user.username, createdAt(id), ProfileTheme(user.theme), |g.entries|, TotalPhotos(g), g));
    assert Accounts.HoldsToken(users, id, token);
    if Accounts.TokensUnique(users) {
      forall other | Accounts.HoldsToken(users, other, token)
        ensures other == id
      {
        Accounts.TokenOwnerUnique(users, token, other, id);
      }
    }
  }
}
