# Counselling rooms and DBT diary cards — a verified model

This project models the service layer of a counselling back end. Counselors
open rooms. Clients join a room with its six-character invite code and file one
DBT diary card per calendar day in it. The model covers four parts:

- **RoomService**: create, list, view, join, leave and delete rooms. This
  includes the invite-code allocator: six characters from `A-Z0-9`, redrawn
  until no room uses the code.
- **DBTCard**: the card record, its `(room, client, date)` unique constraint,
  the `@PrePersist`/`@PreUpdate` timestamp hooks and the `YesNo` and
  `Frequency` enumerations.
- **DBTCardService**: the card upsert keyed by `(room, client, date)` with its
  merge rules, the two readers `getMyCards` and `getCards`, and the response
  mappers.
- **ProfileService**: the role-dependent profile statistics and the guarded
  name update.

The database is a value `Db`: the `users` map and the `rooms`, `members`
(room_members) and `cards` (dbt_cards) tables as sequences of rows, in table
order. `class Store` holds the same four tables as fields. Operations that
write to the database (`CreateRoom`, `JoinRoom`, `LeaveRoom`, `DeleteRoom`,
`CreateOrUpdateCard`, `UpdateProfile`) are methods that modify the store. Each
keeps the store's integrity constraints, `Store.WellFormed`:

- primary keys and unique constraints;
- `(room, client, date)` is unique among cards;
- invite codes are unique and well formed;
- every membership, card and creator refers to an existing room and user;
- the creator of a room is one of its members;
- cards belong to client-role users and are stamped.

Read-only operations (`getRooms`, `getRoomDetail`, `getMyCards`, `getCards`,
`getProfile`) are functions of a `Db` snapshot, so they cannot change the
store. Repository queries are order-preserving filters (`Seqs.Filter`) over a
table.

Inputs the program obtains from its environment are parameters instead:

- the authenticated caller (`SecurityUtil.getCurrentUserId`);
- `LocalDateTime.now()`, as `now`;
- `UUID.randomUUID()`, as a fresh id that is not yet used;
- `Math.random()`, as the sequence of alphabet indices each attempt of the
  invite-code generator draws.

A thrown `BusinessException` is an `Err(code)` of `Common.ErrorCode`. An
`IllegalArgumentException` from `YesNo.valueOf` is `Err(InternalServerError)`,
which is what the global exception handler makes of it. Either way the
`@Transactional` method leaves the store unchanged.

The sources hold no User or RoomMember entity. Their fields (`userId`, `name`,
`email`, `userType`; `room`, `user`, `joinedAt`) are inferred from how the
services use them. `joinedAt` is taken to be the time of the save.

Module layout, in dependency order:

| file | module | contents |
|---|---|---|
| `common.dfy` | `Common` | Option, Result, the ErrorCode enumeration, roles and users |
| `seqs.dfy` | `Seqs` | order-preserving filter, first-match search, unique constraints |
| `iso_date.dfy` | `IsoDate` | `LocalDate.parse` with the strict resolver, and the canonical date text |
| `dbt_card.dfy` | `DbtCard` | the card record, `YesNo`, `Frequency`, the timestamp hooks |
| `invite_code.dfy` | `InviteCode` | `generateRandomCode` and the retry loop of `generateInviteCode` |
| `store.dfy` | `Store` | tables, repository queries, integrity constraints, `class Store` |
| `room_service.dfy` | `RoomService` | the room operations |
| `dbt_card_service.dfy` | `DbtCardService` | the card upsert, readers and response mappers |
| `profile_service.dfy` | `ProfileService` | `getProfile` and `updateProfile` |

Where the code departs from the documented behaviour or from the obvious
reading, the model follows the code:

- **Client per-room card count.** A client's per-room card count in
  `getProfile` counts every card of the room, not only the client's own
  (`ProfileService.java:75`). `ProfileService.ClientRoomCountIsAllCards` states
  the decomposition: the client's own cards plus everybody else's.
  `ProfileService.ClientRoomCountIsOwnCardsOnlyAlone` shows the two counts agree
  exactly when no one else filed a card in the room.
- **`getCards` with a client id.** It only checks that the user exists. It does
  not check that the user is a client or a member of the room
  (`DBTCardService.java:178-193`).
- **Header frequency.** It is stored as the raw request text
  (`DBTCardService.java:82-84`). `Frequency.fromValue` is modelled
  (`DbtCard.FrequencyFromValue`), but the service does not call it, so the
  model does not either.
- **Check order in `leaveRoom` and `deleteRoom`.** Both check the caller's role
  before looking up the room, so a wrong role is FORBIDDEN even for an unknown
  room (`RoomService.java:198-203`, `228-233`).

## Model

| member | source | states |
|---|---|---|
| IsoDate.ParseDate | src/main/java/com/counseling/service/DBTCardService.java:57-62 | an accepted text has the form YYYY-MM-DD and denotes a valid proleptic Gregorian date (month 1-12, day within the month, February 29 only in leap years); any other shape is rejected |
| IsoDate.ParseFormat | src/main/java/com/counseling/service/DBTCardService.java:59 | every valid date with a four-digit year is accepted in its canonical text and parses back to itself |
| IsoDate.FormatParse | src/main/java/com/counseling/service/DBTCardService.java:59 | a text the parser accepts is exactly the canonical text of its date, so each date has one accepted spelling |
| IsoDate.StrictResolverSamples | src/main/java/com/counseling/service/DBTCardService.java:145-150 | the strict resolver on samples: Feb 29 accepted in 2024 and 2000, rejected in 2023 and 1900; Apr 31 rejected; day-first text rejected |
| DbtCard.YesNoValueOf | src/main/java/com/counseling/entity/DBTCard.java:150-152 | `valueOf` succeeds exactly on "yes" and "no", and the constant's name is the argument |
| DbtCard.FrequencyFromValue | src/main/java/com/counseling/entity/DBTCard.java:154-176 | the linear search returns the constant whose value equals the argument, and reports failure exactly when no constant's value matches |
| DbtCard.NewCard | src/main/java/com/counseling/service/DBTCardService.java:66-73 | a built card has the given id and key, and every header, day and timestamp column null |
| DbtCard.OnCreate | src/main/java/com/counseling/entity/DBTCard.java:139-143 | both timestamps become now and the content is untouched |
| DbtCard.Stamp | src/main/java/com/counseling/entity/DBTCard.java:139-148 | a new card gets both timestamps now; a stored card whose columns the request left unchanged is kept exactly (no UPDATE, no @PreUpdate); any other stored card keeps submittedAt and gets updatedAt now; the content is never touched |
| DbtCard.OnUpdate | src/main/java/com/counseling/entity/DBTCard.java:133-148 | updatedAt becomes now, submittedAt (not updatable) keeps its value, and the content is untouched |
| InviteCode.CodeOf | src/main/java/com/counseling/service/RoomService.java:246-253 | the code spelled by six draws in [0, 36) is six characters of `A-Z0-9` |
| InviteCode.GenerateRandomCode | src/main/java/com/counseling/service/RoomService.java:246-253 | the loop appends one drawn alphabet character per position; the result is a well-formed invite code |
| InviteCode.GenerateInviteCode | src/main/java/com/counseling/service/RoomService.java:184-190 | the do-while loop returns the first attempt whose code is not in use; every discarded attempt's code was in use |
| Store.FindRoom | src/main/java/com/counseling/service/RoomService.java:115-116 | findById returns a row with that id, and returns nothing exactly when no room has the id |
| Store.FindRoomByCode | src/main/java/com/counseling/repository/RoomRepository.java:15 | returns a room with that invite code, and returns nothing exactly when no room uses it |
| Store.FindMember | src/main/java/com/counseling/repository/RoomMemberRepository.java:18 | returns a membership of that (room, user), and returns nothing exactly when there is none |
| Store.IsMember | src/main/java/com/counseling/repository/RoomMemberRepository.java:19 | true exactly when some membership row has that room and user |
| Store.RoomsCreatedBy | src/main/java/com/counseling/repository/RoomRepository.java:16 | exactly the rooms whose creator is the user |
| Store.RoomsJoinedBy | src/main/java/com/counseling/repository/RoomRepository.java:18-19 | exactly the rooms the user has a membership in |
| Store.MembersOfUser | src/main/java/com/counseling/repository/RoomMemberRepository.java:21 | exactly the user's memberships |
| Store.ClientMembersOf | src/main/java/com/counseling/service/RoomService.java:90-93 | exactly the room's memberships whose user has the client role |
| Store.CardsOfRoom | src/main/java/com/counseling/repository/DBTCardRepository.java:20 | exactly the room's cards |
| Store.CardsOfRoomAndClient | src/main/java/com/counseling/repository/DBTCardRepository.java:19 | exactly the cards of that room and client |
| Store.CardsOfRoomAndDate | src/main/java/com/counseling/repository/DBTCardRepository.java:22-23 | exactly the cards of that room and day |
| Store.CardsOfClient | src/main/java/com/counseling/repository/DBTCardRepository.java:25 | exactly the client's cards in all rooms |
| Store.FindCard | src/main/java/com/counseling/repository/DBTCardRepository.java:18 | returns a card with that (room, client, date) key, and returns nothing exactly when there is none |
| Store.CardsOutsideRoom | src/main/java/com/counseling/repository/DBTCardRepository.java:28-30 | deleteByRoom leaves exactly the cards of other rooms |
| Store.MembersOutsideRoom | src/main/java/com/counseling/repository/RoomMemberRepository.java:23-25 | deleteByRoom leaves exactly the memberships of other rooms |
| Store.RoomsOtherThan | src/main/java/com/counseling/service/RoomService.java:219 | delete leaves exactly the other rooms |
| Store.MembersWithout | src/main/java/com/counseling/service/RoomService.java:243 | delete(member) leaves exactly the other memberships |
| Store.FindRoomExact | src/main/java/com/counseling/entity/Room.java:18-26 | with unique ids and invite codes, a room is found by either of its keys |
| Store.CascadeWellFormed | src/main/java/com/counseling/service/RoomService.java:211-219 | deleting a room's cards, then its memberships, then the room keeps every integrity constraint |
| RoomService.AddRoomWellFormed | src/main/java/com/counseling/service/RoomService.java:51-65 | saving a room with a fresh id and a fresh, well-formed code, plus its creator's membership, keeps every integrity constraint |
| RoomService.AddMemberWellFormed | src/main/java/com/counseling/service/RoomService.java:171-175 | a new membership of an existing room and user keeps every integrity constraint |
| RoomService.RemoveMemberWellFormed | src/main/java/com/counseling/service/RoomService.java:243 | removing a non-creator's membership keeps every integrity constraint |
| RoomService.NewRoomHasNoClients | src/main/java/com/counseling/service/RoomService.java:61-73 | a room just opened by a counselor has no client-role member, which is why clientCount 0 is correct |
| RoomService.Open | src/main/java/com/counseling/service/RoomService.java:51-65 | appends the room and its creator's membership, keeps the store well formed, and the room has no client |
| RoomService.CreateRoom | src/main/java/com/counseling/service/RoomService.java:39-75 | USER_NOT_FOUND, then FORBIDDEN for a non-counselor; on success exactly one room (fresh id, caller as creator, a fresh code drawn by the allocator) and one membership of the caller are added, and the summary has clientCount 0; nothing changes on an error |
| RoomService.ListedRooms | src/main/java/com/counseling/service/RoomService.java:82-87 | a room is listed exactly when it is visible to the caller's role, and no room is listed twice |
| RoomService.SummaryOf | src/main/java/com/counseling/service/RoomService.java:89-106 | a summary carries the room's columns, the number of its client-role members, and joinedAt present exactly when the caller is a member, holding that membership's joinedAt |
| RoomService.SummariesList | src/main/java/com/counseling/service/RoomService.java:89-107 | the summaries of a duplicate-free room list are duplicate-free and each names a listed room |
| RoomService.SummariesMatchRooms | src/main/java/com/counseling/service/RoomService.java:89-107 | each summary agrees with the stored room it names |
| RoomService.GetRooms | src/main/java/com/counseling/service/RoomService.java:77-108 | USER_NOT_FOUND for an unknown caller; otherwise a room appears exactly when the counselor created it or the client belongs to it, once, with its columns, clientCount the number of client-role members, and joinedAt set exactly when the caller is a member, to that membership's joinedAt; each entry is the SummaryOf its stored room |
| RoomService.ClientInfos | src/main/java/com/counseling/service/RoomService.java:130-138 | one entry per membership with the member's id, name, email and join time |
| RoomService.ClientInfosFacts | src/main/java/com/counseling/service/RoomService.java:129-138 | the clients listed are exactly the room's client-role members, with their stored name and email |
| RoomService.GetRoomDetail | src/main/java/com/counseling/service/RoomService.java:110-152 | USER_NOT_FOUND, ROOM_NOT_FOUND, then FORBIDDEN unless the counselor created it or the client belongs to it; on success the room's columns, its creator's id, name and email, and exactly its client-role members, in membership-table order, each with the user's id, name and email and the membership's joinedAt |
| RoomService.SummaryCountMatchesDetail | src/main/java/com/counseling/service/RoomService.java:90-93 | the clientCount of getRooms equals the number of clients getRoomDetail lists for the room |
| RoomService.Enrol | src/main/java/com/counseling/service/RoomService.java:171-175 | appends the membership and keeps the store well formed |
| RoomService.JoinRoom | src/main/java/com/counseling/service/RoomService.java:154-182 | USER_NOT_FOUND, FORBIDDEN for a non-client, INVALID_INVITE_CODE, ALREADY_JOINED, in that order; on success exactly one membership (room, caller) is added and nothing else changes |
| RoomService.MembersWithoutCount | src/main/java/com/counseling/service/RoomService.java:240-243 | with unique (room, user) memberships, deleting an existing one shortens the table by exactly one |
| RoomService.KeepAll | src/main/java/com/counseling/service/RoomService.java:243 | deleting a membership that is not there changes nothing |
| RoomService.LeaveFacts | src/main/java/com/counseling/service/RoomService.java:235-243 | after a non-creator leaves, the store is well formed, one row is gone, the caller is no member and the creator still is |
| RoomService.Withdraw | src/main/java/com/counseling/service/RoomService.java:243 | the membership table becomes the table without the (room, user) rows; nothing else changes |
| RoomService.LeaveRoom | src/main/java/com/counseling/service/RoomService.java:222-244 | USER_NOT_FOUND, FORBIDDEN for a non-client (before the room lookup), ROOM_NOT_FOUND, FORBIDDEN for the creator or a non-member; on success exactly the caller's membership is removed and the creator remains a member |
| RoomService.Cascade | src/main/java/com/counseling/service/RoomService.java:211-219 | deletes the room's cards, memberships and the room, and keeps the store well formed |
| RoomService.DeleteRoom | src/main/java/com/counseling/service/RoomService.java:192-220 | USER_NOT_FOUND, FORBIDDEN for a non-counselor (before the room lookup), ROOM_NOT_FOUND, FORBIDDEN for another counselor's room; succeeds exactly when the caller created the room; nothing changes on an error |
| RoomService.CascadeLeavesNoResidue | src/main/java/com/counseling/service/RoomService.java:211-219 | after the delete no card or membership refers to the room, every row of other rooms survives, and getRoomDetail reports ROOM_NOT_FOUND |
| DbtCardService.MergedDeterministic | src/main/java/com/counseling/service/DBTCardService.java:75-120 | the merge rules leave no freedom: two merges of one request into one card have the same content |
| DbtCardService.ApplyRequest | src/main/java/com/counseling/service/DBTCardService.java:75-120 | a header overwrites the name always and the yes/no answer and frequency only when given; day data overwrites all 27 columns and the medication only when given; fails with the internal error exactly when a yes/no answer is neither "yes" nor "no"; identity and timestamps untouched |
| DbtCardService.NameOf | src/main/java/com/counseling/service/DBTCardService.java:216-218 | a yes/no column's name is present exactly when the column is, and valueOf of it gives the column back |
| DbtCardService.ToResponse | src/main/java/com/counseling/service/DBTCardService.java:211-265 | the header section is absent exactly when all three header columns are null; the day section is always present; id, room, client, date and submittedAt are copied; no client name or email |
| DbtCardService.ToResponseWithClientInfo | src/main/java/com/counseling/service/DBTCardService.java:267-272 | toResponse plus the client's name and email, and nothing else differs |
| DbtCardService.ResubmitResponse | src/main/java/com/counseling/service/DBTCardService.java:211-265 | sending a card's own response back as a request names the same day, is accepted, and leaves the content unchanged |
| DbtCardService.Upsert | src/main/java/com/counseling/service/DBTCardService.java:63-73 | saving the card for a key grows the table by one exactly when no card has that key |
| DbtCardService.UpsertStored | src/main/java/com/counseling/service/DBTCardService.java:122 | saving the card already stored under its key leaves the table unchanged |
| DbtCardService.UpsertFinds | src/main/java/com/counseling/service/DBTCardService.java:122 | after saving, the card found under its key is the saved card |
| DbtCardService.UpsertFrame | src/main/java/com/counseling/entity/DBTCard.java:13-14 | saving keeps every card under another key, adds none but the saved card, and keeps the (room, client, date) constraint |
| DbtCardService.UpsertTwice | src/main/java/com/counseling/service/DBTCardService.java:63-73 | saving twice under one key equals saving only the second card, and the second save adds no row |
| DbtCardService.UpsertWellFormed | src/main/java/com/counseling/entity/DBTCard.java:13-30 | saving a stamped card of an existing room and client that keeps the stored id or brings a fresh one keeps every integrity constraint |
| DbtCardService.ClientAccess | src/main/java/com/counseling/service/DBTCardService.java:41-55 | USER_NOT_FOUND, FORBIDDEN for a non-client, ROOM_NOT_FOUND, FORBIDDEN for a non-member, in that order; succeeds exactly for a client member with the room |
| DbtCardService.OwnerAccess | src/main/java/com/counseling/service/DBTCardService.java:162-175 | USER_NOT_FOUND, FORBIDDEN for a non-counselor, ROOM_NOT_FOUND, FORBIDDEN for another counselor's room; succeeds exactly for the creator |
| DbtCardService.DateFilter | src/main/java/com/counseling/service/DBTCardService.java:144-150 | null or empty means no filter; other text must parse as a date, else VALIDATION_ERROR |
| DbtCardService.BaseCard | src/main/java/com/counseling/service/DBTCardService.java:63-73 | the stored card for the key if there is one, else a new card with the fresh id and the key |
| DbtCardService.SaveCard | src/main/java/com/counseling/service/DBTCardService.java:122 | the card table becomes the upsert of the card, the card is found under its key, and the store stays well formed |
| DbtCardService.CreateOrUpdateCard | src/main/java/com/counseling/service/DBTCardService.java:39-125 | error precedence user, role, room, membership, date (VALIDATION_ERROR), yes/no answers (internal error), with no change on an error; on success the card for (room, caller, date) is the stored or new card merged with the request, keeps its id and submittedAt or takes the fresh id and now, has updatedAt now unless the resubmission changes no column, in which case the stored card and the table stay as they were, replaces only that key's row, and the response is its toResponse |
| DbtCardService.Responses | src/main/java/com/counseling/service/DBTCardService.java:158 | one toResponse per card, in order |
| DbtCardService.ResponsesWithClientInfo | src/main/java/com/counseling/service/DBTCardService.java:208 | one toResponseWithClientInfo per card, in order, with the card's client |
| DbtCardService.FindCardIsFilter | src/main/java/com/counseling/service/DBTCardService.java:151-153 | with unique keys, the single-card lookup as a list equals the cards filtered by room, client and day |
| DbtCardService.GetMyCards | src/main/java/com/counseling/service/DBTCardService.java:127-159 | the client-member checks, then the date check; the result is exactly the caller's cards in the room (on the given day, if one), in table order, so at most one card for a day |
| DbtCardService.SelectCards | src/main/java/com/counseling/service/DBTCardService.java:177-206 | each of the four repository lookups returns exactly the room's cards matching the given client and day |
| DbtCardService.GetCards | src/main/java/com/counseling/service/DBTCardService.java:161-209 | the creator checks, then CLIENT_NOT_FOUND for an unknown client id, then the date check; the result is exactly the room's cards matching the given filters, with client name and email, and at most one when both filters are given |
| DbtCardService.SavedCardIsReadBack | src/main/java/com/counseling/service/DBTCardService.java:122-159 | after a card is saved, the client's getMyCards for that day returns exactly that card |
| DbtCardService.DeletedRoomHasNoCards | src/main/java/com/counseling/service/RoomService.java:211-219 | after a room is deleted, getCards by any counselor and getMyCards by any client report ROOM_NOT_FOUND |
| ProfileService.CreatedRoomInfos | src/main/java/com/counseling/service/ProfileService.java:56-64 | one entry per created room with its id, name, creation time and card count |
| ProfileService.TotalIsSumOfCounts | src/main/java/com/counseling/service/ProfileService.java:47-57 | the separately computed totalClientCards equals the sum of the per-room cardCount values |
| ProfileService.TotalCountsCardsInRooms | src/main/java/com/counseling/service/ProfileService.java:47-49 | over rooms with distinct ids the total counts each card of those rooms exactly once |
| ProfileService.JoinedRoomInfos | src/main/java/com/counseling/service/ProfileService.java:73-82 | one entry per membership with its room's id and name, the join time and the room's card count |
| ProfileService.GetProfile | src/main/java/com/counseling/service/ProfileService.java:37-93 | USER_NOT_FOUND for an unknown caller; a counselor gets roomCount = created rooms, one entry per created room, totalClientCards = the sum of the entries' counts and no dbtCardCount; a client gets one entry per membership with joinedAt and the room's count, dbtCardCount = their cards in all rooms, and no roomCount or total |
| ProfileService.CounselorTotalCountsOwnRoomsCards | src/main/java/com/counseling/service/ProfileService.java:46-54 | a counselor's totalClientCards is the number of cards filed in the rooms they created |
| ProfileService.ClientRoomCountIsAllCards | src/main/java/com/counseling/service/ProfileService.java:75 | a client's per-room count is their own cards in the room plus everybody else's |
| ProfileService.ClientRoomCountIsOwnCardsOnlyAlone | src/main/java/com/counseling/service/ProfileService.java:75 | the per-room count is at least the client's own cards, and equals it exactly when nobody else filed a card in the room |
| ProfileService.Renamed | src/main/java/com/counseling/service/ProfileService.java:101-103 | the name is replaced only by a non-null, non-empty request name; id, email and role never change |
| ProfileService.SaveUserWellFormed | src/main/java/com/counseling/service/ProfileService.java:105 | saving a user with an unchanged role keeps every integrity constraint |
| ProfileService.SaveUser | src/main/java/com/counseling/service/ProfileService.java:105 | replaces the user's row and keeps the store well formed |
| ProfileService.UpdateProfile | src/main/java/com/counseling/service/ProfileService.java:95-113 | USER_NOT_FOUND with no change for an unknown caller; otherwise only the caller's name changes, and only to a non-empty request name, and the response has the saved identity fields and no stats or rooms |
| ProfileService.RenameKeepsProfile | src/main/java/com/counseling/service/ProfileService.java:85-105 | after a rename the profile differs only in the name: email, role, statistics and rooms are unchanged |

## Left out

- Controllers, JWT authentication, `SecurityUtil`, `AuthService` (sign-up and
  login) and HTTP status mapping are not part of this model. The caller's id is
  a parameter.
- Transactions, isolation and concurrent requests are left out. Each operation
  is one atomic step, and a failed one leaves the store as it was. So the race
  on invite codes and the double submit of a card are not modelled.
- JPA persistence-context behaviour is left out. An entity with a pre-assigned
  id is saved by merging, so the returned Java object may not carry the
  timestamps its hooks set. The model builds responses from the stamped row:
  `submittedAt` on a card's first save, and `createdAt` in `createRoom`'s
  response. The hooks are modelled as running when the card is saved, not at the
  flush that Hibernate performs at commit, after the response was built. Dirty
  checking is modelled only as a whole: a resubmission that changes no column
  writes nothing and keeps `updatedAt`, as `@PreUpdate` (DBTCard.java:145-148)
  does not run then.
- `LocalDateTime.now()` becomes the `now` parameter, `UUID.randomUUID()` a
  fresh id parameter, and `Math.random()` a sequence of draws.
- InviteCode.GenerateInviteCode: the Java loop is unbounded. The model requires
  that some supplied attempt yields an unused code, and proves termination
  against that bound.
- CreateRoom and CreateOrUpdateCard require the supplied id to be unused,
  which stands in for the uniqueness of a random UUID.
- IsoDate.ParseDate: only four-digit years (0000-9999) are accepted. Java's
  `LocalDate.parse` also accepts signed years: a leading `+` with more than four
  digits ("+10000-01-01"), and a leading `-` of any width ("-0001-01-01").
- The order of query results is table order. Native query ordering, `LAZY`
  loading and the `(int)` and `long` casts of counts are not modelled; counts
  are unbounded naturals.
- Cards, rooms, memberships and users are values. A later setter on a Java
  entity object after `save` is not modelled, because no operation does one.
- The controllers' bean validation (`@NotBlank` on the room name, the invite
  code and the card date) is left out, so the services accept a blank room
  name. A blank card date still ends in VALIDATION_ERROR because it does not
  parse, and a blank invite code matches no room.
