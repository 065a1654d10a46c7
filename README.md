# Bookmark service: a Dafny model

A model of the SpringBootBookmarks REST service's core. Each user keeps a set
of bookmarks under `/{username}/bookmarks`. The model covers:

- **BookmarksController**: listing, fetching, adding, editing and deleting
  bookmarks. The controller is a class over two tables, the users and the
  bookmarks. Each table is a sequence of entity objects.
- **The two JPA entities**, `Bookmark` and `User`: mutable classes whose
  equality and hash are by id alone. Their column annotations become validity
  predicates.
- **The Spring Data queries**, replaced by what their names mean. Each lookup
  is a first-match scan. `save` is an upsert by id. `delete` removes by id.
- **JpaAuthenticationProvider**: a plain-text check of a username/password
  pair against the users table.
- **HelloController**: the three greetings.

Modules:

- `Wrappers`: `Option`, `Result` and `Outcome`.
- `Entities`: `Bookmark`, `User`, the models of `HashSet.add`, and the
  id-equality lemmas.
- `Repositories`: UsersRepository, plus the bookmark queries the controller
  calls.
- `Controllers`: BookmarksController, BeanUtils' populate and HelloController's greetings.
- `Components`: the authentication provider.

The main security property is about scoping. getBookmark, editBookmark and
deleteBookmark reach a bookmark only through an (id, owner-username) lookup;
addBookmark does not, and it can take over another user's row (see its
bullet below). So, to a known user, another user's bookmark looks exactly
like a missing one
(`Controllers.AnotherUsersBookmarkLooksMissing`). Rows owned by other users
never change what a user is told (`Controllers.OwnerScopedAnswersIgnoreOtherUsersRows`).

The controller takes no authenticated principal, because the code compares
none. Any authenticated caller can act on any username in the path. The only
checks are:

- existence of the username (list, get, add);
- ownership of the bookmark (get, edit, delete).

Points where the code behaves in a notable way, kept as written:

- `editBookmark` hands the change-set to BeanUtils. BeanUtils lets an `"id"`
  key through to the fetched entity, so the response carries the client's id.
  In the model, where the edit reaches the table, the stored key changes too,
  and the table's key invariant is promised only when the new id is the old
  one or is unused (`BookmarksController.EditBookmark`). In the service the
  edit is not flushed, and an entity whose identifier changed would be
  refused by Hibernate anyway.
- `editBookmark` never calls `save`. The edit happens on the fetched object
  in place. The model's tables hold object references, so the edit reaches
  the table (see the EditBookmark line under "Left out").
- `addBookmark` with a client-supplied id that a row already carries
  replaces that row, even when it belongs to another user.
- `getBookmark` and `getAllBookmarks` fail with `UserNotFound` for an unknown
  user. For a known user, a missing or foreign id gives `BookmarkNotFound` with
  the id as message. The two failures differ, but neither depends on what
  other users store.
- `editBookmark` and `deleteBookmark` do not check that the user exists. For
  an unknown user they give their own `BookmarkNotFound` messages. These
  messages differ from `getBookmark`'s.

Inputs that the original obtains from its environment are parameters here:

- `newId`: the next value of the identity column.
- `toInteger`: BeanUtils' string-to-Integer conversion.
- `changes`: the JSON change-set, already parsed into a map.

## Model

| member | source | states |
|---|---|---|
| Entities.IdsEqual | src/main/java/com/javaeeeee/entities/Bookmark.java:165-169 | the null-aware id comparison holds exactly when the two optional ids are equal, with null equal to null |
| Entities.Utf16Length | src/main/java/com/javaeeeee/entities/Bookmark.java:73-79 | String.length(), the measure @Size uses: one unit per character, two for a character outside the Basic Multilingual Plane, so between the number of characters and twice it |
| Entities.Utf16LengthOfBmp | src/main/java/com/javaeeeee/entities/Bookmark.java:73-79 | on text inside the Basic Multilingual Plane the @Size measure is the number of characters |
| Entities.Bookmark.constructor | src/main/java/com/javaeeeee/entities/Bookmark.java:94-95 | the no-argument constructor leaves every field null |
| Entities.Bookmark.WithOwner | src/main/java/com/javaeeeee/entities/Bookmark.java:104-107 | Bookmark(url, user) sets url and user, unchecked, and leaves id and description null |
| Entities.Bookmark.SetId | src/main/java/com/javaeeeee/entities/Bookmark.java:123-125 | the id becomes the argument; the frame allows no other field to change |
| Entities.Bookmark.SetUrl | src/main/java/com/javaeeeee/entities/Bookmark.java:131-133 | the url becomes the argument; nothing else changes |
| Entities.Bookmark.SetDescription | src/main/java/com/javaeeeee/entities/Bookmark.java:139-141 | the description becomes the argument; nothing else changes |
| Entities.Bookmark.SetUser | src/main/java/com/javaeeeee/entities/Bookmark.java:147-149 | the owner becomes the argument; nothing else changes |
| Entities.Bookmark.Equals | src/main/java/com/javaeeeee/entities/Bookmark.java:159-170 | equal exactly when the other is a bookmark with the same optional id; url, description and owner are ignored |
| Entities.BookmarkEqualsReflexive | src/main/java/com/javaeeeee/entities/Bookmark.java:165-169 | every bookmark equals itself, an id-less one included |
| Entities.BookmarkEqualsSymmetric | src/main/java/com/javaeeeee/entities/Bookmark.java:165-169 | a equals b exactly when b equals a |
| Entities.BookmarkEqualsTransitive | src/main/java/com/javaeeeee/entities/Bookmark.java:159-170 | equality by id is transitive |
| Entities.BookmarkHashConsistent | src/main/java/com/javaeeeee/entities/Bookmark.java:152-156 | equal bookmarks hash equally; the hash is 0 without id and the Integer hash of the id otherwise |
| Entities.Bookmark.HashCode | src/main/java/com/javaeeeee/entities/Bookmark.java:152-156 | 0 for a null id, otherwise the id's value (Integer.hashCode) |
| Entities.Bookmark.IsValid | src/main/java/com/javaeeeee/entities/Bookmark.java:71-89 | a valid bookmark has a url of 1 to 255 code units, a description that is null or at most 2048 code units, and a non-null owner; so the url has at most 255 characters and the description at most 2048 |
| Entities.User.constructor | src/main/java/com/javaeeeee/entities/User.java:78-84 | the no-argument constructor leaves id, username and password null and the bookmark set empty |
| Entities.User.WithCredentials | src/main/java/com/javaeeeee/entities/User.java:92-95 | User(username, password) sets both, unchecked, leaves the id null and starts with an empty bookmark set |
| Entities.User.SetId | src/main/java/com/javaeeeee/entities/User.java:101-103 | the id becomes the argument; nothing else changes |
| Entities.User.SetUsername | src/main/java/com/javaeeeee/entities/User.java:109-111 | the username becomes the argument; nothing else changes |
| Entities.User.SetPassword | src/main/java/com/javaeeeee/entities/User.java:117-119 | the password becomes the argument; nothing else changes |
| Entities.User.AddBookmark | src/main/java/com/javaeeeee/entities/User.java:131-134 | the set becomes HashSet.add of the bookmark under id equality, an equal member is then present, the same bookmark is returned, and only the set may change |
| Entities.User.Equals | src/main/java/com/javaeeeee/entities/User.java:143-155 | equal exactly when the other is a user with the same optional id |
| Entities.UserEqualsIsEquivalence | src/main/java/com/javaeeeee/entities/User.java:143-155 | user equality is reflexive, symmetric and transitive |
| Entities.UserHashConsistent | src/main/java/com/javaeeeee/entities/User.java:136-141 | equal users hash equally; the hash is 0 without id and the id's hash otherwise |
| Entities.User.HashCode | src/main/java/com/javaeeeee/entities/User.java:136-141 | 0 for a null id, otherwise the id's value |
| Entities.User.IsValid | src/main/java/com/javaeeeee/entities/User.java:61-73 | a valid user has a username and a password of 1 to 255 code units each, so at most 255 characters each; uniqueness of usernames is the table's Valid |
| Entities.Inserted | src/main/java/com/javaeeeee/entities/User.java:131-134 | HashSet.add: the set is unchanged exactly when a member equal by id is present, and otherwise gains exactly the argument |
| Entities.InsertedContains | src/main/java/com/javaeeeee/entities/User.java:132 | after the add an equal member is present, and the set grew by at most the argument |
| Entities.InsertedSize | src/main/java/com/javaeeeee/entities/User.java:131-134 | the size grows by one exactly when no member has the bookmark's id, and stays the same otherwise |
| Entities.InsertedIdempotent | src/main/java/com/javaeeeee/entities/User.java:132 | adding the same bookmark twice gives the set that adding once gives |
| Entities.InsertedKeepsNoEqualMembers | src/main/java/com/javaeeeee/entities/User.java:131-134 | the add keeps the set free of two members equal by id |
| Repositories.FindByUsername | src/main/java/com/javaeeeee/repositories/UsersRepository.java:44 | a found user is stored and has the username; nothing is found exactly when no stored user has it |
| Repositories.FindByUsernameAndPassword | src/main/java/com/javaeeeee/repositories/UsersRepository.java:54 | a found user matches both columns; nothing is found exactly when no stored user matches both |
| Repositories.FindByUsernameIsUnique | src/main/java/com/javaeeeee/repositories/UsersRepository.java:44 | with unique usernames, any user carrying the username is the one returned |
| Repositories.FindByUsernameAndPasswordIsUnique | src/main/java/com/javaeeeee/repositories/UsersRepository.java:54 | with unique usernames, any user matching both columns is the one returned |
| Repositories.CredentialLookupAgreesWithUsernameLookup | src/main/java/com/javaeeeee/repositories/UsersRepository.java:44-54 | the credential lookup succeeds exactly when the username lookup finds a user with that password, and both then return the same user |
| Repositories.FindByIdAndUserUsername | src/main/java/com/javaeeeee/controllers/BookmarksController.java:110-111 | a found bookmark is stored, has the id and is owned by the username; nothing is found exactly when no stored bookmark has both |
| Repositories.FindByUserUsername | src/main/java/com/javaeeeee/controllers/BookmarksController.java:93 | the listed bookmarks are exactly the rows whose owner has the username, the same rows OwnedRows gives in table order |
| Repositories.WithoutId | src/main/java/com/javaeeeee/controllers/BookmarksController.java:190 | the remaining rows are exactly the stored rows whose id differs, and none are added |
| Repositories.LookupSeesOnlyOwnRows | src/main/java/com/javaeeeee/controllers/BookmarksController.java:110-111 | the owner-scoped lookup over the whole table equals that lookup over the user's own rows |
| Repositories.ListAndLookupAgree | src/main/java/com/javaeeeee/controllers/BookmarksController.java:89-117 | in a keyed table, a bookmark is in the user's list exactly when the lookup by its id returns it |
| Repositories.WithoutIdRemovesOne | src/main/java/com/javaeeeee/controllers/BookmarksController.java:190 | deleting a stored row by its key removes exactly that row, and the table shrinks by one |
| Repositories.WithoutIdOfAbsent | src/main/java/com/javaeeeee/controllers/BookmarksController.java:190 | deleting a key no row carries leaves the table unchanged |
| Repositories.WithoutIdKeepsKey | src/main/java/com/javaeeeee/controllers/BookmarksController.java:183-195 | removing the rows with a key keeps the primary key intact |
| Controllers.Populate | src/main/java/com/javaeeeee/controllers/BookmarksController.java:166 | BeanUtils.populate sets id, url and description from the keys that name them; the owner and other keys are left alone |
| Controllers.Patched | src/main/java/com/javaeeeee/controllers/BookmarksController.java:166 | the meaning of BeanUtils.populate on a bookmark: each of the keys id, url and description sets its field, id through the Integer conversion, and the fields no key names keep their values; its properties are the Patched lemmas below |
| Controllers.PatchedLeavesUnnamedFields | src/main/java/com/javaeeeee/controllers/BookmarksController.java:164-166 | a field the change-set does not name keeps its value |
| Controllers.PatchUrlOnly | src/main/java/com/javaeeeee/controllers/BookmarksController.java:164-167 | the change-set {"url": x} sets the url to x and keeps id and description |
| Controllers.PatchedIgnoresOtherKeys | src/main/java/com/javaeeeee/controllers/BookmarksController.java:166 | keys naming no settable property have no effect |
| Controllers.PatchedIdempotent | src/main/java/com/javaeeeee/controllers/BookmarksController.java:166 | applying a change-set twice is applying it once |
| Controllers.PatchedLetsIdThrough | src/main/java/com/javaeeeee/controllers/BookmarksController.java:166 | an "id" key overwrites the bookmark's id with the converted value |
| Controllers.IntegerToString | src/main/java/com/javaeeeee/controllers/BookmarksController.java:115 | Integer.toString of the id in the not-found messages: a minus sign exactly for a negative id, then at least one digit, only digits, no leading zero, and reading the numeral back gives the number |
| Controllers.NotFoundMessagesIdentifyTheId | src/main/java/com/javaeeeee/controllers/BookmarksController.java:169-193 | each of the three not-found messages determines the id it was raised for |
| Controllers.BookmarksController.constructor | src/main/java/com/javaeeeee/controllers/BookmarksController.java:74-79 | the controller is built over the injected users and bookmarks tables, and it satisfies the table constraints (Valid) whenever the injected tables do |
| Controllers.BookmarksController.Valid | src/main/java/com/javaeeeee/entities/Bookmark.java:63-89 | the database constraints the tables keep: usernames unique (the unique column at User.java:64), every bookmark id present and unique (the primary key), every bookmark owned by a stored user (the user_id foreign key); it is the invariant that AddBookmark, Save, DeleteBookmark and Delete keep |
| Controllers.BookmarksController.ValidateUser | src/main/java/com/javaeeeee/controllers/BookmarksController.java:203-207 | passes exactly when some stored user has the username; otherwise UserNotFound with that username |
| Controllers.BookmarksController.GetAllBookmarks | src/main/java/com/javaeeeee/controllers/BookmarksController.java:89-94 | fails with UserNotFound exactly for an unknown username; otherwise returns exactly the stored bookmarks whose owner has that username |
| Controllers.BookmarksController.GetBookmark | src/main/java/com/javaeeeee/controllers/BookmarksController.java:104-117 | returns a stored bookmark with the id owned by the username; fails exactly when none exists, with UserNotFound for an unknown user and the id as BookmarkNotFound message otherwise |
| Controllers.BookmarksController.AddBookmark | src/main/java/com/javaeeeee/controllers/BookmarksController.java:122-136 | known user: the owner becomes the user, the user's set is HashSet.add of the bookmark, the row is saved and fetchable, the same object is returned, and valid url and description give a valid bookmark; unknown user: UserNotFound and nothing changes; table constraints kept |
| Controllers.BookmarksController.AttachAndSave | src/main/java/com/javaeeeee/controllers/BookmarksController.java:128-131 | for a found user: the user's set becomes HashSet.add of the bookmark, the owner becomes that user, and the row keyed by the bookmark's id (the generated one for a null id) becomes this bookmark, in front; constraints kept |
| Controllers.BookmarksController.Save | src/main/java/com/javaeeeee/controllers/BookmarksController.java:131 | a null id gets the generated one; the row with the bookmark's id becomes this bookmark, in front; constraints kept |
| Controllers.BookmarksController.EditBookmark | src/main/java/com/javaeeeee/controllers/BookmarksController.java:152-173 | only the bookmark found by (id, username) changes, to the populated fields, and it is returned; none found: BookmarkNotFound "Bookmark not found id = " and no bookmark changes; owners never change |
| Controllers.BookmarksController.DeleteBookmark | src/main/java/com/javaeeeee/controllers/BookmarksController.java:183-195 | exactly the found bookmark leaves the table, which shrinks by one, and it is returned, after which fetching it fails; none found: BookmarkNotFound "Bookmark not found. id = " and the table is unchanged |
| Controllers.BookmarksController.Delete | src/main/java/com/javaeeeee/controllers/BookmarksController.java:190 | the row with the entity's id is removed; constraints kept |
| Controllers.OwnerScopedAnswersIgnoreOtherUsersRows | src/main/java/com/javaeeeee/controllers/BookmarksController.java:89-117 | two valid stores with the same users and the same set of rows owned by a username give that username the same list and lookup answers |
| Controllers.OwnedLookupDependsOnlyOnOwnedSet | src/main/java/com/javaeeeee/controllers/BookmarksController.java:110-111 | in keyed tables with the same set of rows owned by a username, a hit of the owner-scoped lookup in one is the same hit in the other |
| Controllers.AnotherUsersBookmarkLooksMissing | src/main/java/com/javaeeeee/controllers/BookmarksController.java:108-116 | to a known user, another user's stored bookmark gives the same BookmarkNotFound as a missing id |
| Components.Authenticate | src/main/java/com/javaeeeee/components/JpaAuthenticationProvider.java:53-71 | succeeds exactly when a stored user matches both username and password, returning an authenticated username/password token with the input's principal, credentials and authorities; every failure is "Wrong credentials." |
| Components.Supports | src/main/java/com/javaeeeee/components/JpaAuthenticationProvider.java:73-76 | true exactly for the UsernamePasswordAuthenticationToken class |
| Components.AuthenticateIsUsernameLookupThenPasswordCheck | src/main/java/com/javaeeeee/components/JpaAuthenticationProvider.java:56-70 | with unique usernames, authentication succeeds exactly when the username is known and its stored password matches; an unknown name and a wrong password fail alike |
| Controllers.GetGreeting | src/main/java/com/javaeeeee/controllers/HelloController.java:44-54 | the fixed "Hello Spring Boot World", which starts with "Hello " |
| Controllers.GetPathParamGreeting | src/main/java/com/javaeeeee/controllers/HelloController.java:63-65 | starts with "Hello ", and the rest is exactly the name |
| Controllers.GetQueryParamGreeting | src/main/java/com/javaeeeee/controllers/HelloController.java:74-80 | with a name, the path greeting for that name; without one, the fixed greeting; always starts with "Hello " |
| Controllers.GreetingsDetermineName | src/main/java/com/javaeeeee/controllers/HelloController.java:63-79 | the two parameter forms agree, and different names give different greetings |

## Left out

- HTTP plumbing is not modelled: routing, status codes (201 on add, 200 on edit and delete) and the JSON (de)serialisation by Jackson. `editBookmark` takes the change-set as a parsed map.
- `getGreeting` has its request mapping commented out, so it is unreachable over HTTP. The model still gives it as a function.
- The exception classes UserNotFoundException and BookmarkNotFoundException are not part of this model. Their constructor arguments are kept as the errors' messages.
- BookmarksRepository is not part of this model. Its derived queries and the inherited `save` and `delete` are given by their Spring Data meaning only:
  - `findByUserUsername` is the set of rows whose owner has the username.
  - `findByIdAndUserUsername` is the first row with that id and owner.
  - `save` replaces the row with the same id, or gives a null id the identity column's next value (`newId`). A client-supplied id that no row carries is kept as the new row's key (see the Save line below).
  - `delete` removes the row with the entity's id.
- Hibernate's merge and persist details are not modelled: managed versus detached instances, flushing, and cascade.
- BookmarksController.Save and BookmarksController.AddBookmark: when the bookmark carries an id no row has, the service's save merges. The merge finds no row and so inserts a copy under a newly generated id, while the controller returns the request object, which still carries the client's id. The model instead stores the request object under the client's id, so AddBookmark's promise that the bookmark is fetchable by its returned id holds in the model but not in the service for such an id.
- BookmarksController.EditBookmark: the model assumes the in-place edit reaches the table. In the service, populate writes to the entity after the lookup's transaction has ended. No save or flush follows, so the stored row plausibly never changes.
- BeanUtils' reflection is not modelled. Its string-to-Integer conversion is the parameter `toInteger`, so a conversion failure is not modelled.
- Controllers.Patched: only the keys `id`, `url` and `description` are applied, and every other key is ignored. BeanUtils itself resolves nested names, so `{"user.username": x}` or `{"user.password": x}` would write into the owner's User object. A plain `"user"` key would fail in the string-to-User conversion. So "owners never change" (`BookmarksController.EditBookmark`) and `PatchedIgnoresOtherKeys` are facts about this model's allow-list, not about the library.
- Bookmark.IsValid and User.IsValid: length is counted in UTF-16 code units as `String.length()` counts it. Dafny characters are Unicode scalar values, so a string holding an unpaired surrogate, which Java allows, cannot be represented.
- BookmarksController.Save and BookmarksController.AddBookmark: Bean Validation (`@NotNull`, `@Size`) and the database's NOT NULL columns are validity predicates only. The model's Save accepts any bookmark. The service's save would fail validation on an invalid one, such as a null url, when JPA's validation runs on persist or merge. So AddBookmark's Success for such a bookmark is the model's, not the service's.
- BookmarksController.AddBookmark: requires that the request-body bookmark is not already a stored object, which Jackson's fresh deserialisation guarantees. Requires that `newId` is unused, which the identity column guarantees.
- BookmarksController.EditBookmark: the table's constraints are promised only when an `"id"` key keeps the id or moves it to an unused one. The code itself does not prevent a duplicate key.
- User.bookmarks is not updated by `deleteBookmark`. The deleted bookmark stays in its owner's in-memory set, as in the code.
- Stale hash buckets are not modelled. A bookmark's id can change after it was added to a HashSet (save assigns it), and the model's set is mathematical.
- Spring Security's Authentication is reduced to a string principal, string credentials, authorities and the authenticated flag. Other principal kinds are not modelled, and neither is a null credentials object, whose `toString` throws.
- `toString` of both entities is not modelled.
- `equals` against objects that are not entities is not modelled. The model's equality is typed.
- The entity tests expect constructors and setters to throw on null or empty arguments, but the code checks nothing, and the model follows the code.
- The tests call a `Bookmark(String, String)` constructor that the entity does not have. It is not modelled.
- Concurrency and transactions are not modelled; nothing in the code is concurrent.
