# Birdex discovery records, modelled in Dafny

Birdex is a bird collection ("birdex") web application. A Flask server
(`app.py`) keeps users, their discoveries (one per user and bird number) and
the photos attached to each discovery in SQLite. This project models the
server-side record logic of that file:

- how `save_discoveries` upserts a batch of birds: find or create the
  discovery, delete its photos, insert the submitted ones;
- the loop that groups the joined discovery/photo rows into a
  `bird_number -> {photos: [...]}` dictionary;
- the rules of registration, the theme allow-list, gallery pagination, the
  data-URL header split of `compress_image` and the shared-profile counters;
- the share-token get-or-create.

The tables are values. `users` is a map from id to row. `discoveries` and
`photos` are sequences of rows in insertion order, each with its
AUTOINCREMENT counter. SQL statements become functions on those values.
The routes that write are methods of the class `Store.Database`, whose
fields are the tables. Each method runs the route's loop step by step and
is proved to end in the state given by the matching function of `Accounts`
or `Discoveries`. The lemmas about those functions then describe the route.

Files:

- `wrappers.dfy`: `Option` and `Result`.
- `accounts.dfy`: the `users` table, with registration, theme and share token.
- `images.dfy`: the header split and `compress_image`. The image codec is a
  parameter.
- `gallery.dfy`: pagination and SQLite's `LIMIT/OFFSET`.
- `grouping.dfy`: the grouping loop and `get_shared_profile`.
- `discoveries.dfy`: the discoveries and photos tables, the statements of
  `save_discoveries`, and the properties of saving.
- `store.dfy`: the `Database` class.

The server also serves a service worker, `static/sw.js` (app.py:298-305).
The JavaScript it runs in the browser, with its offline cache and sync
queue, is not part of this model, which follows `app.py`.

Python and SQLite semantics are written out:

- Truthiness: a missing value, `None` and `""` are false, and so is a
  photo id of 0.
- `//` rounds toward minus infinity.
- Dictionaries keep insertion order, so a grouped result is the list of its
  keys in insertion order plus the map.
- A negative SQLite `LIMIT` means no limit, and a negative `OFFSET` counts
  as 0.

A request body is a JSON object. It becomes the sequence of its
`(bird_number, bird_data)` items. `json.loads` keeps one entry per key, so
the bird numbers of a request are pairwise distinct
(`Discoveries.DistinctBirds`), and `Store.Database.SaveDiscoveries`
requires this of its input. The pure fold `Discoveries.SaveAll` accepts
any sequence. Its lemmas speak of the last item for a bird
(`Discoveries.LastFor`), which for a JSON object is the bird's only item
(`Discoveries.ItemOfDistinct`).

One behaviour of `compress_image` is modelled as written. When decoding
fails after the header has been split off, the fallback result is built
from the payload, because `image_data` was reassigned on line 206. The
client's header is then replaced by `data:image/jpeg;base64,` unless the
payload itself contains a comma (`Images.Fallback`,
`Images.FallbackLosesHeader`).

Pagination binds `per_page` and `(page - 1) * per_page` as SQLite
integers. Values outside the signed 64-bit range raise `OverflowError`
before the division is reached, and the model returns that error
(`Gallery.GalleryPage`).

## Model

| member | source | states |
|---|---|---|
| Accounts.ValidateRegistration | app.py:331-338 | Registration passes the guards iff username and password are both truthy, the username has at least 3 characters and the password at least 6. Each of the three 400 answers is characterised exactly, in the order the route checks them. |
| Accounts.Register | app.py:326-357 | 200 iff the guards pass and the username is not taken. Then the new row (name, hash of the password, theme `pokemon`, not admin, no share token) is stored under the next id and the counter advances. Otherwise the answer is 400 and nothing changes. |
| Accounts.RegisterKeepsUsersValid | app.py:66-72 | Registering keeps usernames and share tokens unique (the two UNIQUE columns) and every id below the AUTOINCREMENT counter. |
| Accounts.UpdateThemeKeepsUsersValid | app.py:834-835 | The theme UPDATE keeps every constraint of the `users` table. |
| Accounts.UpdateTheme | app.py:821-839 | 200 iff there is a session and the theme is one of `pokemon`, `dark`, `white`. 401 without a session, 400 with a session for any other theme or none. On any failure the table is unchanged. On success only the session user's theme changes, and a missing row still answers 200. |
| Accounts.GetShareToken | app.py:846-864 | 401 without a session. A stored truthy token is returned with nothing written. With none stored, the candidate uuid is written to the user's row and returned, or the answer is 500 when another row holds it (UNIQUE share_token). A missing row returns the candidate unwritten. |
| Accounts.ShareTokenIdempotent | app.py:854-861 | After a successful call for an existing user, a second call with any candidate returns the same token and writes nothing. |
| Accounts.ShareTokenKeepsUsersValid | app.py:72 | Get-or-create never gives two rows the same token, because a candidate another row holds is refused. |
| Accounts.TokenOwnerUnique | app.py:72 | Under the UNIQUE share_token column, a token is held by at most one user, so a shared profile names one user. |
| Accounts.ShareTokenTouchesOnlyOwnToken | app.py:857-858 | Get-or-create changes no other row and no column of the user's row except `share_token`. |
| Images.FirstComma | app.py:203-204 | The result is the index of the first comma, and None iff the text has no comma. |
| Images.SplitOnce | app.py:204 | `split(',', 1)`: with no comma the one part is the text; otherwise the two parts joined by a comma give back the text and the first part has no comma. |
| Images.SplitHeader | app.py:202-209 | The split never takes the `InvalidFormat` branch. With a comma, header plus payload is the input and the header ends at its only comma. Without one, the header is `data:image/jpeg;base64,` and the payload is the whole input. |
| Images.HeaderEndsWithComma | app.py:202-207 | Every header ends with a comma and contains no other. |
| Images.SplitAfterHeader | app.py:202-207 | Any header followed by any text splits back into exactly that header and that text. |
| Images.Fallback | app.py:254-261 | The fallback result has no thumbnail and size 0, and its `full` value always contains a comma. |
| Images.CompressImage | app.py:182-261 | `full` always contains a comma. A thumbnail exists iff the input is non-empty and the codec accepts its payload. On success `full` and `thumbnail` are the input's header followed by the codec's data, and `size` is the codec's size. Empty input gives the default header alone. A rejected payload gives the fallback built from the payload. |
| Images.FallbackLosesHeader | app.py:206-258 | When the codec rejects a comma-free payload, the result is the default JPEG header plus the payload, whatever header the input had, with no thumbnail and size 0. |
| Images.CompressKeepsHeader | app.py:249-250 | When the codec succeeds, the stored image has the input's header and its payload is the codec's output. |
| Gallery.FloorDiv | app.py:716 | Python's `//`: the quotient is rounded toward minus infinity for either sign of the divisor. |
| Gallery.LimitOffset | app.py:703-712 | SQLite `LIMIT ? OFFSET ?`: at most `limit` rows when it is non-negative, with the exact row count and element i equal to row offset+i. |
| Gallery.GalleryPage | app.py:684-724 | `OverflowError` iff `per_page` or `(page-1)*per_page` lies outside the 64-bit range. Division by zero iff those fit and `per_page` is 0. Otherwise `total` is the photo count and the photos are rows `(page-1)*per_page` onward, at most `per_page` of them. For positive `per_page`, `total_pages` is the ceiling of total / per_page. |
| Gallery.GalleryRequest | app.py:690-691 | A given `page` or `per_page` is used as sent, and each one that is absent defaults on its own, to 1 and 12 respectively; the page shown carries those values. A request without either shows the first twelve photos. |
| Gallery.TotalPagesIsCeiling | app.py:716 | `(total + per_page - 1) // per_page` is the ceiling of total / per_page. |
| Gallery.EveryPhotoOnItsPage | app.py:711-716 | For a 64-bit `per_page` and photo count, photo i appears on page `i / per_page + 1`, which lies between 1 and total_pages, at position `i % per_page`. |
| Gallery.PagesBeyondLastAreEmpty | app.py:711-716 | A page number beyond total_pages yields no photos. |
| Gallery.PagesBelowOneShowFirstPage | app.py:690-711 | Page numbers below 1 are not rejected and show the photos of page 1. |
| Grouping.GroupRows | app.py:460-492 | The grouping loop (also at 760-788 and 911-939) returns the fold `GroupAll`. Every bird number of the rows is a key exactly once, including a bird without photos. Each key's photos are that bird's photo rows in row order. Its `discovered_at` is that of the bird's first row. |
| Grouping.GroupAllMeaning | app.py:460-492 | The same facts about `GroupAll`, plus: the photo lists together hold as many photos as there are photo-bearing rows. |
| Grouping.GroupAllShape | app.py:464-469 | The key list names each key once and matches the map, whose keys are exactly the rows' bird numbers. The total photo count equals the photo-row count. |
| Grouping.GroupAllPhotos | app.py:471-492 | Each key's list is exactly its bird's photo rows, in row order. |
| Grouping.GroupAllDiscoveredAt | app.py:464-468 | Each entry keeps the `discovered_at` of its bird's first row. |
| Grouping.GetSharedProfile | app.py:883-949 | 404 iff no row of `users` holds the token. Otherwise the name, creation date and theme are those of a user holding it, with the theme falling back to `pokemon`. Under the UNIQUE share_token column they are those of every holder, so of the one holder. Further, `discovered_count` is the number of distinct birds, `total_photos` the number of rows with truthy `photo_data`, and `discoveries` the grouped rows. |
| Discoveries.FindIndex | app.py:529-532 | The lookup finds the first row with the (user, bird_number) key, or reports that no row has it. |
| Discoveries.FindIndexAppend | app.py:534-538 | After an INSERT, a key found before is still found at the same row, and only the inserted key is found at the new row. |
| Discoveries.FindIndexOfRow | app.py:85 | Under UNIQUE(user_id, bird_number), looking up a row's key finds that row. |
| Discoveries.DiscoveryIdInjective | app.py:79-85 | Two keys that find the same discovery id are the same key. |
| Discoveries.DeletePhotos | app.py:548-551 | Exactly the photos of the given discovery and user are removed. Photo ids stay in increasing order. |
| Discoveries.LastFor | app.py:527 | The item chosen for a bird has that bird number and no later item has it. There is none iff no item of the request has it. |
| Discoveries.ItemOfDistinct | app.py:527 | When bird numbers are distinct, as in a JSON object, the item chosen for an item's bird is that item. |
| Discoveries.ToStored | app.py:560-597 | A photo sent with an `id` is stored as sent, with the sent thumbnail and size 0. A new photo is stored as `compress_image` returns it. The other columns are copied from the request. |
| Discoveries.InsertSubmitted | app.py:554-597 | The photo INSERTs leave the discoveries table alone and never move the photo counter backwards. |
| Discoveries.FindOrCreateFacts | app.py:529-546 | Find-or-create leaves one row for the key. An existing row is reused with nothing changed; otherwise exactly one row is appended with the next id. All table invariants hold. |
| Discoveries.FindOrCreateOther | app.py:529-546 | Find-or-create for one key does not change the discovery any other key finds. |
| Discoveries.PhotosOfDelete | app.py:548-551 | After the DELETE the discovery has no photos, and every other discovery keeps its photos. |
| Discoveries.PhotosOfAppend | app.py:581-597 | An INSERT adds its photo at the end of its own discovery's list only. |
| Discoveries.StoredPhotosAppend | app.py:555-558 | A further submitted photo adds its stored form only when its `photo` is truthy. |
| Discoveries.InsertSubmittedView | app.py:555-597 | The inner loop appends the submitted photos with a truthy `photo`, in submission order, to its discovery and to no other. |
| Discoveries.InsertSubmittedValid | app.py:554-597 | The inserts keep photo ids increasing and below the counter, and every photo pointing at an existing discovery. |
| Discoveries.SaveBirdValid | app.py:527-597 | One pass of the outer loop keeps every table invariant and only appends discovery rows. |
| Discoveries.SaveBirdView | app.py:527-597 | After one pass the bird's discovery holds exactly the submitted photos, and every other discovery's photos are unchanged. |
| Discoveries.SaveBirdReplaces | app.py:548-597 | Saving a bird leaves it holding exactly its submitted photos with a truthy `photo`, in order. No older photo of it survives. |
| Discoveries.SaveBirdOther | app.py:527-597 | Saving a bird changes neither the discovery id nor the photos of any other (user, bird_number) key, and every photo row of such a key survives whole, with its id, which the read routes return and `get_photo` looks up. |
| Discoveries.SaveBirdKeepsRows | app.py:548-597 | The DELETE matches only the saved discovery's rows and the INSERTs only append, so every photo row of another (user, bird_number) key is still in the table, id included. |
| Discoveries.InsertSubmittedPrefix | app.py:580-597 | The photo INSERTs only append rows: the old table is a prefix of the new one. |
| Discoveries.SaveAllValid | app.py:527-597 | Saving a request never creates a second discovery for a (user, bird_number), keeps ids unique and photos attached to existing discoveries, and only appends discovery rows. Each new row belongs to the saving user and to a bird of the request. |
| Discoveries.SaveAllReplaces | app.py:527-597 | Each bird of the request ends up holding exactly the truthy-`photo` photos of its last item, in submission order. |
| Discoveries.SaveAllUntouched | app.py:527-597 | Other users' keys, and this user's birds absent from the request, keep their discovery and their photos, and each of their photo rows stays in the table unchanged, id included. |
| Discoveries.SaveAllReusesDiscovery | app.py:529-546 | A bird that already had a discovery keeps the same discovery id. |
| Store.Database.constructor | app.py:60-109 | The tables start empty, every counter starts at 1, and the invariants hold. |
| Store.Database.Register | app.py:326-357 | The route leaves exactly the status and `users` table of `Accounts.Register`, and the other tables as they were. |
| Store.Database.UpdateTheme | app.py:821-839 | The route leaves exactly the status and `users` table of `Accounts.UpdateTheme`. |
| Store.Database.GetShareToken | app.py:846-864 | The route answers and writes exactly as `Accounts.GetShareToken`. |
| Store.Database.SaveDiscoveries | app.py:499-614 | For a request with distinct bird numbers: 401 without a session and 400 for a missing or empty request, with nothing changed. Otherwise the answer is 200, the new tables are `SaveAll` of the old ones, and every invariant is kept. `users` is never touched. |
| Store.Database.SaveBird | app.py:527-597 | One pass of the outer loop, with its inner loop over the photos, leaves `SaveBird` of the old tables and keeps the invariants. |
| Store.Database.InsertPhotos | app.py:556-597 | The inner loop leaves the photos table as `InsertSubmitted` of the old one: one row per submitted photo with a truthy `photo`, in order, under consecutive ids. The users table is unchanged. |

## Left out

- Flask routing, sessions, cookies and logging: a session is an optional user id, and a request body is a value.
- JSON parsing and responses: the response dictionaries are reduced to the fields the rules compute.
- SQL text, connections and `commit`: every statement is a function on the table values.
- The joins and `ORDER BY` of the read routes: their rows are an input, already in order.
- The `flask_caching` cache and its invalidation. It holds copies and carries no logic of its own.
- SHA-256 (`hash_password`) and `uuid4` are parameters of the functions that use them.
- The Pillow decode, resize and JPEG encode, and base64: a `Codec` parameter stands for all of them and either fails or yields full data, thumbnail data and a size.
- The `updated_at`, `created_at` and `discovered_at` timestamps. `discovered_at` is carried as a value, and `created_at` is a parameter of `Grouping.GetSharedProfile`. The UPDATE at app.py:542-546 sets only `updated_at` and is a no-op in the model. The `updated_at` column of the theme UPDATE is not modelled.
- The `coordinates` dict-to-JSON conversion on save and JSON-to-dict conversion on read: coordinates are kept as stored text.
- The per-route projections of the photo columns, such as the light route's and the shared profile's smaller dictionaries.
- Store.Database.SaveDiscoveries: does not model the rollback on an exception (status 500), for example a submitted photo that is not an object, because the model's request is well-typed.
- Gallery.GalleryPage: `int()` failing on a non-numeric `page` or `per_page` is not modelled, because the parameters are integers.
- Storage-size figures in megabytes: they are floating point.
- The metadata, admin-stats, promotion, login/logout, current-user, debug, photo-fetch, regenerate-token and static routes: they are outside the discovery logic modelled here.
- The migration route: it reads another database file.
- Schema creation and admin seeding: the constructor starts from empty tables.
- `generate_icons.py` is not part of this model: it only resizes image files.
