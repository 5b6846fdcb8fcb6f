# mediatekformation catalog — a Dafny model

mediatekformation is a catalog of video training sessions ("formations").
Each formation belongs to at most one playlist and is filed under any
number of categories. A public site lists, sorts and searches formations
and playlists. An admin back office adds, edits and deletes them, with
two business rules:

- a playlist can be deleted only when it holds no formation;
- a category can be deleted only when no formation is filed under it, and a new category name must not already exist (case ignored).

This project models the core of that system as pure Dafny functions and
proves what they promise.

- **Entities** (`FormationEntity`, `PlaylistEntity`, `CategorieEntity`, `UserEntity`) are immutable records.
  - Objects refer to each other by primary key.
  - The bidirectional helpers (`addFormation`, `removeCategory`, ...) return both updated sides.
  - Derived values are modelled too: the `d/m/Y` date string, the thumbnail URLs, a playlist's category names and a user's roles.
- **The database** (`Store`, `Tables`) has one table per entity, as a sequence of rows in insertion order.
  - The owning sides (`Formation.playlist`, `Formation.categories`) are what is stored.
  - The inverse collections (`Playlist.formations`, `Categorie.formations`) are what loading reads back from them. `Store.Sync` re-reads them after every write.
  - `WellFormed` is the primary-key uniqueness rule. `Integrity` is the foreign-key rule.
- **Queries** (`FormationRepository`, `PlaylistRepository`, `CategorieRepository`) are functions of the store.
  - `ORDER BY` is a sort by a `Key` with NULL first, in either direction (`Ordering`).
  - `LIKE '%v%'` is substring search (`Text`).
  - Doctrine's object hydration lists each entity once.
  - Each result is characterised by its members, their multiplicities and its order.
- **Controllers** (`PlaylistsController`, `AdminPlaylistsController`, `AdminCategoriesController`) return an outcome and the new store.
  - The outcome is a success or danger flash message, a rendered page, or a fatal error.
  - The admin playlist list and sort pages run the same code as the public ones, so `PlaylistsController.Index` and `PlaylistsController.Sort` model both.
- **The formation form** (`FormationForm`): its constraints, its error set and the date it pre-fills.
- **Clocks**: "now" is a parameter wherever the source reads the clock.

## Model

| member | source | states |
|---|---|---|
| Text.InfixIffOccurs | src/Repository/FormationRepository.php:84-86 | The left-to-right `LIKE '%value%'` scan succeeds exactly when the value occurs at some index of the column text |
| Text.Trim | src/Form/FormationType.php:36-42 | Trimmed text is empty exactly when the input is blank; otherwise it is the contiguous part of the input with blank sides, starting and ending with non-blank characters |
| Text.TrimIdempotent | src/Form/FormationType.php:36-42 | Trimming already-trimmed text changes nothing |
| Text.LowerIdempotent | src/Repository/CategorieRepository.php:84 | `LOWER` of a lower-cased name is that name, so comparing `LOWER` of both sides is a case-insensitive equality |
| Text.Decimal | src/Entity/Formation.php:124 | The decimal rendering of a number is a non-empty digit string whose value is that number, with no leading zero except for zero itself |
| Text.PadDecimal | src/Entity/Formation.php:124 | A zero-padded rendering keeps the number's value and is exactly the field width when the number fits |
| Text.LeadingZeros | src/Entity/Formation.php:124 | Padding with zeros on the left does not change a digit string's value |
| Collections.AddIfAbsent | src/Entity/Formation.php:245-247 | After "add unless contained" the element is present; membership grows by exactly that element; a present element leaves the collection unchanged; no duplicate is introduced |
| Collections.RemoveFirst | src/Entity/Formation.php:259 | `removeElement` reports whether the element was present, removes exactly its first occurrence, and otherwise leaves the collection unchanged |
| Collections.RemoveFirstOfNoDup | src/Entity/Formation.php:257-262 | On a duplicate-free collection, `removeElement` agrees with the independent "every other element, in order" definition and leaves no copy behind |
| Collections.RemoveFirstOfAppended | src/Entity/Categorie.php:105-112 | Removing an element that was just appended to a collection lacking it restores the collection |
| Collections.Distinct | src/Entity/User.php:97 | `array_unique` keeps each value once, the same values as the input, in order of first appearance |
| Collections.DistinctKeepsOrder | src/Entity/User.php:94-97 | Two values keep their relative order of first appearance after de-duplication |
| Ordering.Sort | src/Repository/FormationRepository.php:56-59 | `ORDER BY` returns a permutation of its rows in which every row precedes the later ones under the requested direction |
| Ordering.PrecedesTotalOrder | src/Repository/FormationRepository.php:57 | Each direction of `ORDER BY` is a total order on column values (reflexive, total, antisymmetric, transitive), NULL first for `ASC` |
| Ordering.BestKey | src/Repository/FormationRepository.php:61-64 | Through the categories join, the key a formation is sorted by is one of its categories' keys and precedes all of them |
| Ordering.IntKeyOrder | src/Repository/PlaylistRepository.php:111 | Ordering on a count key is the numeric order of the counts, in both directions |
| Dates.NotAfterReflexiveTotal | src/Entity/Formation.php:38-39 | The date comparison behind `LessThanOrEqual("now")` is reflexive and total |
| Dates.NotAfterAntisymmetric | src/Entity/Formation.php:38-39 | Two dates each not later than the other are the same instant |
| Dates.YearRoundTrip | src/Entity/Formation.php:124 | The year printed by format character `Y` reads back as the same year |
| Dates.FormatDmyRoundTrip | src/Entity/Formation.php:124 | Day, month and year read back unchanged from any `d/m/Y` rendering |
| Dates.FormatDmyExample | tests/FormationTest.php:21-28 | 23 November 2025 renders as `23/11/2025` |
| Tables.FindById | src/Controller/admin/AdminCategoriesController.php:95 | `find($id)` returns a row with that key exactly when one exists, and null otherwise |
| Tables.Upsert | src/Repository/FormationRepository.php:29-33 | `persist`+`flush` stores the entity, keeps keys unique, keeps every row with another key, and grows the table only for a new key |
| Tables.Delete | src/Repository/FormationRepository.php:40-44 | `remove`+`flush` leaves no row with the key, keeps every other row, keeps keys unique, and shrinks the table by one only if the key was present |
| Tables.NextId | src/Entity/Formation.php:29-31 | A generated key is above every key in use, so it is new |
| FormationEntity.PublishedAtString | src/Entity/Formation.php:119-125 | The date string is empty exactly when no date is set; otherwise day, month and year read back from it, and for a year of at most four digits it is exactly ten characters (`dd/mm/yyyy`) |
| FormationEntity.PublishedAtStringExample | tests/FormationTest.php:21-28 | A formation published on 23 November 2025 shows `23/11/2025` |
| FormationEntity.ThumbnailRoundTrip | src/Entity/Formation.php:194-206 | A thumbnail URL built from a video id yields that video id back |
| FormationEntity.Miniature | src/Entity/Formation.php:194-197 | The small-thumbnail URL starts with the image base path and encodes the video id (empty for none) before `/default.jpg` |
| FormationEntity.Picture | src/Entity/Formation.php:203-206 | The picture URL starts with the image base path and encodes the video id (empty for none) before `/hqdefault.jpg` |
| FormationEntity.AddCategory | src/Entity/Formation.php:243-250 | After `addCategory` the category is present, the other categories and all other fields are unchanged, and a present category changes nothing |
| FormationEntity.AddCategoryIdempotent | src/Entity/Formation.php:243-250 | Adding a category twice is adding it once |
| FormationEntity.RemoveCategory | src/Entity/Formation.php:257-262 | `removeCategory` changes only the categories; it drops exactly one entry when the category is present and nothing otherwise; on a duplicate-free list it removes the category completely |
| FormationEntity.Violations | src/Entity/Formation.php:38-39 | The publication-date constraint reports at most one violation, and none exactly when the date is null or not later than now |
| FormationEntity.ViolationsOfDates | tests/Validations/FormationsValidationsTest.php:35-62 | A date equal to now or earlier yields no violation; a strictly later date yields exactly one |
| CategorieEntity.AddFormation | src/Entity/Categorie.php:90-98 | A new formation is appended and the category is added to the formation's categories unless already there, every other category kept; a present formation changes nothing; both sides stay in agreement |
| CategorieEntity.AddFormationIdempotent | src/Entity/Categorie.php:90-98 | Adding a formation twice is adding it once |
| CategorieEntity.RemoveFormation | src/Entity/Categorie.php:105-112 | Removal drops exactly the first occurrence of the formation from the category (every occurrence when duplicate-free) and exactly the first entry of the category from the formation's categories, all of them when those are duplicate-free; an absent formation changes nothing; both sides stay in agreement |
| CategorieEntity.RemoveUndoesAdd | src/Entity/Categorie.php:90-112 | Removing a formation right after adding it restores both the category and the formation |
| PlaylistEntity.AddFormation | src/Entity/Playlist.php:120-128 | A new formation is appended and pointed at the playlist; a present one changes nothing; ownership agreement is kept |
| PlaylistEntity.AddFormationIdempotent | src/Entity/Playlist.php:120-128 | Adding a formation twice is adding it once |
| PlaylistEntity.RemoveFormation | src/Entity/Playlist.php:135-143 | The formation's playlist becomes null exactly when the collection held it and it pointed at this playlist (or it was already null); in every other case the formation is returned unchanged; the collection loses exactly the first occurrence of the formation; ownership agreement is kept |
| PlaylistEntity.RemoveUndoesAdd | src/Entity/Playlist.php:120-143 | Removing a playlist-less formation right after adding it restores both sides |
| PlaylistEntity.NamesOfIdsMember | src/Entity/Playlist.php:155-158 | With unique keys, a name occurs in one formation's category names exactly when one of its categories carries it |
| PlaylistEntity.CategoryNamesMember | src/Entity/Playlist.php:152-159 | With unique keys, a name occurs in the nested walk exactly when some formation of the list has a category of that name |
| PlaylistEntity.CategoriesPlaylist | src/Entity/Playlist.php:149-162 | The playlist's category names come without repetition, are exactly the names the walk meets, and are ordered by first appearance |
| PlaylistEntity.CategoriesPlaylistMember | src/Entity/Playlist.php:149-162 | A name is listed exactly when some formation of the playlist is filed under a category of that name |
| UserEntity.Roles | src/Entity/User.php:92-98 | The roles always include `ROLE_USER`, hold no duplicate, are exactly the stored roles plus `ROLE_USER`, and keep order of first appearance |
| UserEntity.RolesKeepStoredOrder | src/Entity/User.php:92-98 | Stored roles keep their relative order, and an added `ROLE_USER` comes after all of them |
| UserEntity.UserIdentifier | src/Entity/User.php:82-85 | The identifier is the username, or the empty string for a null username |
| Store.MembersOfPlaylist | src/Entity/Playlist.php:44 | A loaded playlist's collection holds exactly the ids of the formations pointing at it, without duplicates when keys are unique |
| Store.MembersOfCategorie | src/Entity/Categorie.php:36 | A loaded category's collection holds exactly the ids of the formations filed under it, without duplicates when keys are unique |
| Store.MembersOfPlaylistCount | src/Repository/PlaylistRepository.php:107-111 | `COUNT(f.id)` over the left join equals the number of formations whose foreign key names the playlist |
| Store.Sync | src/Entity/Formation.php:67-75 | After a flush every inverse collection is the one the owning sides determine; every row is kept in place with only its collection re-read, and formations, keys, uniqueness and integrity are kept |
| Store.SyncIdempotent | src/Entity/Formation.php:67-75 | Reloading a freshly loaded store changes nothing |
| Store.PlaylistOf | src/Entity/Formation.php:67-68 | A formation's playlist is the stored row its foreign key names; under integrity it exists exactly when the key is set |
| Store.CategoriesOfIds | src/Entity/Formation.php:74-75 | A formation's categories are stored rows it names, and with unique keys every stored row it names is among them |
| Store.HydratedLinks | src/Entity/Formation.php:67-75 | In a loaded store with integrity, every playlist owns exactly the formations pointing at it, and both sides of every category link agree |
| FormationRepository.FindAllOrderBy | src/Repository/FormationRepository.php:53-67 | The result holds exactly the formations the join keeps, each as often as stored, sorted on the chosen column of the formation, its playlist or its categories |
| FormationRepository.FindAllOrderByOwnIsPermutation | src/Repository/FormationRepository.php:55-59 | Sorting on a formation column returns every formation |
| FormationRepository.InnerJoinOmitsUnlinked | src/Repository/FormationRepository.php:61-64 | The inner join drops formations without a playlist, or without categories, when sorting through that relation |
| FormationRepository.FindByContainValue | src/Repository/FormationRepository.php:77-98 | An empty value returns every formation; otherwise exactly the matching formations, each as often as stored, newest first |
| FormationRepository.SearchOwnColumn | src/Repository/FormationRepository.php:82-88 | A non-empty search on a formation column finds exactly the formations whose non-null column contains the value at some index |
| FormationRepository.Take | src/Repository/FormationRepository.php:109 | `setMaxResults(n)` keeps the first `n` rows, or all when fewer |
| FormationRepository.FindAllLasted | src/Repository/FormationRepository.php:105-112 | The result has `min(nb, count)` stored formations, newest first, and none left out is more recent than one kept |
| FormationRepository.FindAllForOnePlaylist | src/Repository/FormationRepository.php:119-128 | Exactly the formations joined to the playlist, each as often as stored, oldest first |
| FormationRepository.FindAllForOnePlaylistByForeignKey | src/Repository/FormationRepository.php:119-128 | Under integrity these are the formations whose foreign key names the playlist, and their number is its formation count |
| FormationRepository.CountMembers | src/Repository/PlaylistRepository.php:107-111 | Any list holding the formations that point at a playlist, as often as stored, has as many rows as the playlist's loaded collection |
| FormationRepository.Add | src/Repository/FormationRepository.php:29-33 | The write succeeds exactly when the formation's foreign keys name stored rows and its join rows are distinct (the join table's key is the id pair); then the formation is stored, every other formation is kept, the playlist and category tables keep every row (collections re-read), and the store stays loaded and consistent |
| FormationRepository.Remove | src/Repository/FormationRepository.php:40-44 | The formation's row is gone, every other formation is kept, the playlist and category tables keep every row (collections re-read), and the store stays loaded and consistent |
| PlaylistRepository.FindAllOrderByName | src/Repository/PlaylistRepository.php:51-59 | Every playlist once (as stored), sorted on its name |
| PlaylistRepository.FindAllOrderByNbFormations | src/Repository/PlaylistRepository.php:101-116 | Every playlist, including empty ones, ordered by the number of formations pointing at it, in the requested direction |
| PlaylistRepository.FindByContainValue | src/Repository/PlaylistRepository.php:69-94 | An empty value gives every playlist by name ascending; otherwise exactly the matching playlists, each as often as stored, by name ascending |
| PlaylistRepository.SearchByCategory | src/Repository/PlaylistRepository.php:84-92 | A category search finds exactly the playlists holding a formation filed under a category whose column contains the value |
| PlaylistRepository.Add | src/Repository/PlaylistRepository.php:29-33 | The playlist is stored (with its collection read from the formations), every other playlist and every category is kept, formations are untouched, the table grows only for a new key, and the store stays loaded and consistent |
| PlaylistRepository.Remove | src/Repository/PlaylistRepository.php:40-44 | The delete fails exactly when a formation still points at the playlist; otherwise its row is gone, every other playlist and every category is kept, and formations are untouched |
| CategorieRepository.FindAllForOnePlaylist | src/Repository/CategorieRepository.php:51-61 | Exactly the categories used by a formation of the playlist, each as often as stored, by name ascending |
| CategorieRepository.FindAllSorted | src/Repository/CategorieRepository.php:67-73 | Every category, by name ascending |
| CategorieRepository.FindOneByNameIn | src/Repository/CategorieRepository.php:80-89 | No row, the only matching row, or an error for several, decided on row indices of the table |
| CategorieRepository.FindOneByName | src/Repository/CategorieRepository.php:80-89 | Not found exactly when no category name equals the argument ignoring case; a found category is the only match; a non-unique result means two distinct categories match |
| CategorieRepository.FindOneByNameFindsStored | tests/Repository/CategorieRepositoryTest.php:102-110 | A stored name looked up in any case finds that category when no other category shares it |
| CategorieRepository.Add | src/Repository/CategorieRepository.php:29-33 | The category is stored (with its collection read from the formations), every other category and every playlist is kept, formations are untouched, and the store stays loaded and consistent |
| CategorieRepository.Unfile | src/Repository/CategorieRepository.php:40-44 | Deleting a category's join rows removes it from a formation's categories and changes nothing else |
| CategorieRepository.UnfileAll | src/Repository/CategorieRepository.php:40-44 | Every formation loses exactly that category; keys stay unique |
| CategorieRepository.UnfileKeepsIntegrity | src/Repository/CategorieRepository.php:40-44 | Deleting a category together with its join rows leaves every foreign key valid |
| CategorieRepository.Remove | src/Repository/CategorieRepository.php:40-44 | The category's row and all its join rows are gone, every formation is kept otherwise unchanged, every other category and every playlist is kept, and the store stays loaded and consistent |
| PlaylistsController.Index | src/Controller/PlaylistsController.php:64-74 | The page lists every playlist once, by name ascending |
| PlaylistsController.Sort | src/Controller/PlaylistsController.php:83-100 | `name` and `nbFormations` use the requested direction; any other field falls back to name ascending; the list is always every playlist |
| PlaylistsController.SortByCountDescending | tests/Repository/PlaylistRepositoryTest.php:93-105 | Sorting by formation count descending never lists a playlist before one with more formations |
| AdminPlaylistsController.Suppr | src/Controller/admin/AdminPlaylistsController.php:202-217 | An unknown id is fatal; an existing playlist with no formations is deleted with a success message, every other playlist, every category and every formation kept; otherwise a danger message and no change |
| AdminPlaylistsController.SupprDeletesUnusedOnly | src/Controller/admin/AdminPlaylistsController.php:207-213 | Under integrity, an existing playlist is deleted exactly when no formation points at it, and refused exactly when some does |
| AdminCategoriesController.Index | src/Controller/admin/AdminCategoriesController.php:56-84 | A valid submission adds the trimmed name under a fresh key, keeping every category and playlist, unless a category already has it (ignoring case), which gives a danger message; anything else renders the page with the store unchanged |
| AdminCategoriesController.IndexKeepsNamesDistinct | src/Controller/admin/AdminCategoriesController.php:64-75 | While names are distinct ignoring case, adding never fails on several matches and keeps names distinct |
| AdminCategoriesController.Suppr | src/Controller/admin/AdminCategoriesController.php:92-105 | An unknown id is fatal; a category with an empty loaded collection is deleted with a success message, its join rows dropped, every other category and every playlist kept; otherwise a danger message and no change |
| AdminCategoriesController.SupprDeletesUnusedOnly | tests/Controller/admin/AdminCategoriesControllerTest.php:38-96 | In a loaded store, an existing category is deleted exactly when no formation is filed under it, refused exactly when one is, and deleting it changes no formation |
| FormationForm.Errors | src/Form/FormationType.php:36-84 | The form reports a blank title, a missing date, a date later than now and a missing playlist, each exactly when it happens and at most once |
| FormationForm.ValidIff | src/Form/FormationType.php:36-84 | The form is valid exactly when the trimmed title is non-empty, a date no later than now is given and a playlist is chosen |
| FormationForm.DateRuleMatchesEntity | src/Form/FormationType.php:58-61 | The form's date rule and the entity's date constraint agree on every given date |
| FormationForm.DefaultPublishedAt | src/Form/FormationType.php:52-53 | The pre-filled date is the formation's own date when it has one, and now otherwise |
| FormationForm.DefaultDatePasses | src/Form/FormationType.php:52-61 | Submitting the pre-filled date unchanged raises no date error unless the stored date is already in the future |

## Left out

- HTTP, routing, Twig rendering, redirects and the flash-message store: a controller action is modelled as the outcome it reaches and the store it leaves.
- The entity manager's identity map, lazy loading and change tracking: entities are values identified by key, and the inverse collections are re-read after every write (`Store.Sync`).
- SQL strings built from route parameters: sortable and searchable columns are enumerations. An unknown field or table name raises a query error in the source and cannot be expressed in the model.
- Direction strings other than `ASC`/`DESC`: `Ordering.Order` has the two legal values. Another string is a query error in the source.
- Database collation: strings are compared by code point, and `LIKE` is case-sensitive. A case- or accent-insensitive MySQL collation would compare and match differently.
- `LIKE` wildcards: `%` and `_` typed into a search value are taken literally, not as wildcards.
- Text.LowerChar: lower-cases ASCII and Latin-1 capitals only. Capitals from other scripts are left as they are.
- Text.IsTrimmed: covers control characters, space and line/paragraph separators and the common invisible format characters. Rarer format characters that the form layer may also strip are not included.
- Ordering.Sort: rows with equal keys may come in any order, so ties are left unspecified rather than following the database's arbitrary choice.
- FormationRepository.FindAllLasted: `nb` is a natural number. A negative or null maximum passed to `setMaxResults` is not modelled.
- Ordering.BestKey: through the categories join, a formation is placed by its best category key. This follows Doctrine keeping the first row of each entity when it merges repeated join rows.
- PlaylistRepository.Remove: deleting a playlist that formations still point at is modelled as a failed write (the foreign key rejects it). The controller only calls it when no formation does.
- Collections.Distinct: PHP's `array_unique` keeps the original array keys, so `getRoles` can return a list with gaps in its keys. The model returns the values in order and drops the keys.
- Dates: "now" is a parameter. The date picker's day-only precision, time zones and the real clock are not modelled.
- FormationForm.Errors: the entity's own date constraint may be reported alongside the form's date message when the form validates the entity. Only the form's own constraints are listed; `FormationForm.DateRuleMatchesEntity` shows the two agree.
- Column lengths (100, 50, 20 and 180 characters) and the errors a too-long value raises in the database.
- Login, logout, password hashing and upgrade (`LoginController`, `UserRepository`, `User::eraseCredentials`): these are framework security plumbing.
- Plain getters, setters and constructors, except where a getter computes something.
- Delegating controller actions are not modelled separately. These include `AccueilController`, `FormationsController` and `AdminFormationsController`, and the find and show actions of the playlist controllers. Each passes its route arguments straight to a repository query modelled above and renders the result.
- The add and edit actions are not modelled separately either. They save a submitted form through the repository `Add` functions modelled above.
- `PlaylistType` and `CategorieType` beyond the category name's trimmed `NotBlank` rule, which `AdminCategoriesController.Index` includes.
