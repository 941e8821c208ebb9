# mbop in Dafny

A model of the parts of mbop (a Go service that stands in for the BackOffice Proxy) that hold state, loop
over data or compute texts with a meaning, and proofs of what they keep, what they promise and where the
code and its evident intent part.

`dafny verify dfyconfig.toml` checks the whole project. It needs nothing but Dafny 4.11.

## How it is laid out

| file | contents |
|---|---|
| `Sequences.dfy` | selection, first match, pairwise relations, joining |
| `GoSlices.dfy` | Go slice headers over a shared array, and `append` |
| `Registrations.dfy`, `Allowlist.dfy`, `Cidr.dfy` | records, and each store operation on values; address blocks as intervals |
| `InMemoryStore.dfy`, `PostgresStore.dfy` | the two stores as classes that change their state |
| `StoreAgreement.dfy`, `RequestAgreement.dfy`, `Paging.dfy` | slice store against table, by store call and by request, once and over runs; listing by pages |
| `Certs.dfy`, `HandlerSteps.dfy`, `Handlers.dfy` | the certificate header; the handlers as steps, and as methods on either store |
| `Runs.dfy`, `AllowlistRuns.dfy` | claims over every run of requests |
| `Migrations.dfy` | the display-name backfill and the constraints around it |
| `SearchText.dfy`, `AccountQueries.dfy`, `QueryMeaning.dfy` | the search language, the printers, and what the searches select |
| `Models.dfy`, `FindUsers.dfy`, `OrgAdmins.dfy` | users; the direct user filter; the admin-flag pipeline |
| `Mailer.dfy`, `AmsLookup.dfy` | recipients rewritten in place, and their lookup through accounts |
| `UsernamesQuery.dfy`, `QueryOrder.dfy` | the comma-joined names; the order text kept in a package variable |

Code that changes state is a class or a method with loops, proved equal to a function on values; the claims are
lemmas about those functions.

## Main results

* **Authentication follows history** (`Runs.AuthFollowsHistory`, `Runs.RegisteredUntilDeleted`). On the table,
  whatever requests organizations mix, a certificate answers the organization that last registered its name with
  success and has not deleted it since; on the slice store the same holds all through a run exactly when every
  deletion meets a condition (`Runs.MemoryRunKeepsBooksIff`). `Runs.RegisterStatusIff` and `Runs.UnregisterStatusIff`
  say on either store exactly when a registration or a deletion succeeds.
* **Runs of requests are served** (`Handlers.ServeAll`). The handlers, on either store class, take a sequence of
  requests through the run of the state machine that the claims are about, answers included.
* **The slice store against the tables** (`StoreAgreement.RunsAgreeIff`). Create, update, delete, allow and deny agree
  exactly under a condition a caller can check first, and two stores stay in step through a run exactly when every
  call meets its condition; `StoreAgreement.ChecksAgreeIff` does the same for the address check.
* **Deployment against deployment** (`RequestAgreement.DeploymentsAgreeIff`). Whole runs of requests have the same
  states and answers on both stores exactly when every request meets its condition when it is made.
* **The allowlist conserves blocks** (`AllowlistRuns.RunConserves`, `AllowlistRuns.AllowedIffInOpenInterval`).
  Multiplicity equals successful additions minus successful removals, and after every run an address is allowed
  exactly when its number lies in the interval, by section 3.1 of RFC 4632, of a block still open, those that the
  store came with included.
* **Printed searches mean what they should** (`SearchText.ParsePrintIff`, `OrgAdmins.FlagsAreJustified`). A query is
  read back as intended exactly when its texts contain no quote.
* **Account search against direct filter** (`QueryMeaning.SameSelectionIff`, `QueryMeaning.SameListSelectionIff`).
  They select the same people from every list exactly under a condition on the texts of the request.
* **Pages** (`Paging.PagesListEverythingOnce`) and **the direct filter** (`FindUsers.FindUsersBy`) meet their
  declarative form on every input.
* **Recipients** (`Mailer.RangeAndReplace`, `Mailer.CompleteExactlyWhen`, `Mailer.LookupMeans`, `AmsLookup.RecipientsResolved`). The
  in-place rewriting never reallocates and loses exactly the tail behind the last looked-up name; with the account
  service every name before that becomes the address of an account that carries it, or empty.
* **Migrations** (`Migrations.NamesUniqueIffUidsUnique`, `Migrations.RestoringFailsIff`) can declare their constraint
  exactly on the tables named there.

## Where code and intent differ

* In-memory `Delete` takes the first record with either key (`internal/store/in_memory_store_impl.go:71`);
  the table wants both. `DeleteAgreesIff` gives the condition, `DeletesPart` an example.
* In-memory `Update` writes to a copy (`internal/store/in_memory_store_impl.go:59-64`), and the table reports no error
  when nothing matches: `UpdateAgreesIff`.
* In-memory display names are unique over all organizations (`internal/store/in_memory_store_impl.go:48`):
  `CreateAgreesIff`, `CreatesPart`.
* The allowlist creation handler appends `/32`, the deletion handler does not
  (`internal/handlers/allowlist_handler.go:40-42`, `internal/handlers/allowlist_handler.go:68`): `BareBlockNotFound`,
  `DenyUndoesAllowIff`.
* The address check of the slice store ignores the organization (`internal/store/in_memory_store_impl.go:83`), so a
  block of one organization opens registration to all others: `ChecksAgreeIff`, `ChecksPart`.
* The table refuses a second copy of a block, the slice store keeps it and removes one copy at a time:
  `AllowAgreesIff`, `DenyAgreesIff`, `DuplicateBlocks`.
* The slice store lists everybody's blocks to an organization (`internal/store/in_memory_store_impl.go:80-82`):
  `ListsAgreeIff`.
* The mailer's second `append` copies an empty tail (`internal/service/mailer/helpers.go:106-107`):
  `LostTail`, `CompleteExactlyWhen`.
* `createV3QueryOrder` grows a package variable: `OrderIsIntendedIff`.
* `createUsernamesQuery` drops leading empty names: `ReadBackIff`.
* The search for no usernames has an empty text (`internal/service/ocm/ocm_impl.go:188-200`) and finds every account:
  `UsernameSearchFindsListedIff`. `POST /v1/users` runs it for an empty list, and for an unreadable body too, as the
  guard answers 400 and does not return (`internal/handlers/users_v1_handler.go:17-20`): `UsersByNameShows`. The direct
  filter selects nobody for an empty list, and folds case: `ListTestsAgreeIff`.
* The direct filter does not test an empty organization and takes `%` and `_` literally; the account search tests it
  and reads them as wildcards (`internal/service/catchall/ephemeral.go:105-117`, `internal/service/ocm/ocm_impl.go:220-236`):
  `BackendsAgreeIff`.

## Defects that their surroundings mask

* The deletion handler answers 400 to an empty uid and goes on (`internal/handlers/registration_handler.go:157-160`):
  harmless on the table, but the slice store would lose a registration: `EmptyUidDeletion`. The router never passes an
  empty uid: the wildcard of its pattern (`cmd/mbop/mbop.go:48`) matches non-empty segments only.
* `AllowedAddresses` of the slice store hands out its own slice, and a later removal shifts what the caller holds:
  `InMemoryStore.DenyAddress`, `OldHeaderSameIff`. The only caller copies the list at once
  (`internal/handlers/allowlist_handler.go:99-112`).
* The merge of admin flags clears a flag only in its own copy of the user
  (`internal/handlers/accounts_v3_users_handler.go:55-62`): `MergedFlagIff`. No client hands over flagged users
  (`internal/service/ocm/ocm_impl.go:168-182`, `internal/service/ocm/ocm_mock.go:93-105`), so the merged flags are the
  right ones all the same: `FoundNeverFlagged`, `FlagsFollowHits`, `FlagsAreJustified`.

## Assumptions

* The grammar of the account service is not in the repository. The model assumes quoted texts, `=`, `like`, and
  `and` binding tighter than `or`; an empty text does not restrict. LIKE follows section 8.5 of ISO/IEC 9075-2
  without an escape character.
* Parsing of blocks and addresses (`net.ParseCIDR`, `net.ParseIP`) is a parameter, so the claims hold for every
  parser; addresses are taken in their shortest form. Case folding is a parameter: two texts are equal when it maps
  them to the same text. The Keycloak user service is taken to split the joined usernames at every comma.
* The allowlist table may come with blocks that no handler added, such as those of `system`; they are assumed to
  parse, to contain a slash and not to repeat.
* Each SQL statement is one atomic step under the declared constraints; a negative limit or offset fails the
  statement. The clock advances with every request, so creation times are distinct. Go's growth of a reallocated
  slice is a parameter.

## Model

| member | source | states |
|---|---|---|
| `GoSlices.Append` | internal/service/mailer/helpers.go:106-107 | the view grows by the appended values; the backing array is kept and only cells behind the slice change when the capacity suffices, and is left alone when it does not |
| `GoSlices.CutOut` | internal/store/in_memory_store_impl.go:72 | removing one element by append on a prefix keeps the array; a header of the old length sees the last element twice |
| `GoSlices.OldHeaderSameIff` | internal/store/in_memory_store_impl.go:99 | a header of the old length shows the same list exactly when all elements from the removed one on are equal |
| `InMemoryStores.InMemoryStore.All` | internal/store/in_memory_store_impl.go:13-21 | the organization's records in creation order and their number, whatever the limit and offset |
| `InMemoryStores.InMemoryStore.Find` | internal/store/in_memory_store_impl.go:23-31 | the first record with both keys, or not found, as `Registrations.FindMeans` spells out |
| `InMemoryStores.InMemoryStore.FindByUID` | internal/store/in_memory_store_impl.go:33-41 | the first record with the uid, or not found |
| `InMemoryStores.InMemoryStore.Create` | internal/store/in_memory_store_impl.go:43-56 | the records after the call and its error: refused when any record has the uid or the display name, else appended with the time |
| `InMemoryStores.InMemoryStore.Update` | internal/store/in_memory_store_impl.go:58-67 | the records never change; not found, a panic on a nil value, or success |
| `InMemoryStores.InMemoryStore.Delete` | internal/store/in_memory_store_impl.go:69-78 | the first record with either key is shifted out in place within the same array; it succeeds exactly when some record has the organization or the uid |
| `InMemoryStores.InMemoryStore.AllowedAddresses` | internal/store/in_memory_store_impl.go:80-82 | hands out the stored slice header itself |
| `InMemoryStores.InMemoryStore.AllowedIP` | internal/store/in_memory_store_impl.go:83-91 | the scan over all blocks, with the nil network of an unparsable block as an outcome of its own |
| `InMemoryStores.InMemoryStore.AllowAddress` | internal/store/in_memory_store_impl.go:92-95 | the block is appended, duplicates included |
| `InMemoryStores.InMemoryStore.DenyAddress` | internal/store/in_memory_store_impl.go:96-105 | one copy is removed in place, and a list handed out before loses it and shows its last block twice; it looks the same exactly when every block from that copy on is the pair |
| `PostgresStores.PostgresStore.All` | internal/store/postgres_store_impl.go:20-52 | the page of the organization's rows ordered newest first, and the count over all pages |
| `PostgresStores.PostgresStore.Create` | internal/store/postgres_store_impl.go:68-97 | refused on the declared unique constraints, else one row more |
| `PostgresStores.PostgresStore.Update` | internal/store/postgres_store_impl.go:99-109 | the statement as defined for the table: rows with both keys get the new value, and no match is no error |
| `PostgresStores.PostgresStore.Delete` | internal/store/postgres_store_impl.go:111-132 | the statement as defined for the table: rows with both keys go, and anything but one of them is reported as not found |
| `PostgresStores.PostgresStore.AllowedIP` | internal/store/postgres_store_impl.go:176-211 | when all blocks parse, some block owned by the organization or by `system` covers the address; else the scan of those blocks, with a parse error as an outcome |
| `PostgresStores.PostgresStore.DenyAddress` | internal/store/postgres_store_impl.go:218-233 | the pair is deleted, or reported as not listed when no row went |
| `Registrations.FindByUidMeans` | internal/store/in_memory_store_impl.go:33-41 | the first record with the uid is found, and none exactly when no record has it |
| `Registrations.FindMeans` | internal/store/in_memory_store_impl.go:23-31 | a found record has both keys, and none is found exactly when no record has both |
| `Registrations.MemoryDeleteMeans` | internal/store/in_memory_store_impl.go:69-78 | succeeds exactly when some record has the organization or the uid, and takes the first such record |
| `Registrations.TableDeleteMeans` | internal/store/postgres_store_impl.go:111-132 | the rows that lack one of the keys stay; success exactly when one row went |
| `Registrations.MemoryUpdateMeans` | internal/store/in_memory_store_impl.go:58-67 | nothing is written; the error tells a missing record from a missing value |
| `Registrations.TableUpdateMeans` | internal/store/postgres_store_impl.go:99-109 | every row with both keys has the new value, every other is as it was |
| `Registrations.OwnRowsMean` | internal/store/in_memory_store_impl.go:15-19 | the rows of an organization are those that name it |
| `Registrations.MemoryCreateKeeps` | internal/store/in_memory_store_impl.go:43-56 | uids, display names and creation order are kept; refused exactly when some record shares the uid or the display name, and then nothing changes |
| `Registrations.MemoryDeleteKeeps` | internal/store/in_memory_store_impl.go:69-78 | a delete keeps uids, display names and creation order |
| `Registrations.TableCreateKeeps` | internal/store/migrations/4_display_name_unique_per_org.up.sql:5-7 | the constraints hold after an insert, which is refused exactly on a shared uid or a shared name in the organization |
| `Registrations.TableUpdateKeeps` | internal/store/postgres_store_impl.go:99-109 | an update keeps the constraints |
| `Registrations.TableDeleteOne` | internal/store/migrations/1_add_unique_index_to_uid.up.sql:1-3 | under the uid constraint a delete removes exactly the one row with both keys, or fails and removes none |
| `StoreAgreement.CreateAgreesIff` | internal/store/in_memory_store_impl.go:43-56 | slice store and table agree on a create exactly unless the only clash is a name of another organization; what the slice store accepts the table accepts with the same rows |
| `StoreAgreement.UpdateAgreesIff` | internal/store/in_memory_store_impl.go:58-67 | they agree on an update exactly when it would change nothing and finds its record |
| `StoreAgreement.DeleteAgreesIff` | internal/store/in_memory_store_impl.go:69-78 | they agree on a delete exactly when the first record with either key has both, or none has either |
| `StoreAgreement.NotFoundAgrees` | internal/store/in_memory_store_impl.go:77 | a delete the slice store reports as not found is not found in the table |
| `StoreAgreement.OwnRowsNewestFirst` | internal/store/postgres_store_impl.go:24 | with increasing creation times the order of the statement is the reverse of the creation order |
| `StoreAgreement.TablePageMeans` | internal/store/postgres_store_impl.go:20-52 | a page counts from the newest of the organization's rows backwards; its length and the count are given for every limit and offset |
| `StoreAgreement.AllAgreesIff` | internal/store/postgres_store_impl.go:20-52 | the table's list is the reverse of the slice store's, with the same count, exactly when limit and offset cut nothing off |
| `StoreAgreement.AllowAgreesIff` | internal/store/in_memory_store_impl.go:92-95 | they agree on an addition exactly when the pair is not stored |
| `StoreAgreement.DenyAgreesIff` | internal/store/in_memory_store_impl.go:96-105 | they agree on a removal exactly when the pair is stored at most once, whether or not the key holds |
| `StoreAgreement.ChecksAgreeIff` | internal/store/in_memory_store_impl.go:83-91 | when all blocks parse, the address checks agree exactly when a covering block implies a covering block of the organization or of `system` |
| `StoreAgreement.ChecksPart` | internal/store/in_memory_store_impl.go:83 | a block of another organization opens the gate of the slice store only |
| `StoreAgreement.StepAgreesIff` | internal/store/interface.go:8-24 | any write to registrations or allowlist agrees on both stores exactly under its condition |
| `StoreAgreement.MemoryRunKeeps` | internal/store/in_memory_store_impl.go:43-78 | over every run uids and display names stay pairwise distinct and records in creation order |
| `StoreAgreement.TableRunKeeps` | internal/store/postgres_store_impl.go:68-132 | over every run the constraints of both tables hold |
| `StoreAgreement.RunsAgreeIff` | internal/store/interface.go:8-24 | two stores that start alike stay in step, rows, blocks and errors, through a run of registration and allowlist writes exactly when every call meets its condition |
| `StoreAgreement.DeletesPart` | internal/store/in_memory_store_impl.go:71 | two registrations of one organization, where deleting the second removes different records |
| `StoreAgreement.ForeignUidParts` | internal/store/in_memory_store_impl.go:71 | the uid of another organization: the slice store deletes the record, the table does not |
| `StoreAgreement.CreatesPart` | internal/store/in_memory_store_impl.go:48-50 | a name of another organization, refused by the slice store only |
| `RequestAgreement.RegisterAgreesIff` | internal/handlers/registration_handler.go:79-154 | a registration goes alike exactly when a gate that only others' blocks open meets a request refused for want of an admin, and otherwise unless the only clash is a name of another organization |
| `RequestAgreement.UnregisterAgreesIff` | internal/handlers/registration_handler.go:156-181 | a deletion goes alike exactly for a non-admin or under the agreement condition of the stores |
| `RequestAgreement.ListAgreesIff` | internal/handlers/registration_handler.go:36-77 | a listing is answered alike exactly when it is refused before the store is asked, or shows all of an organization with at most one registration |
| `RequestAgreement.RequestAgreesIff` | internal/store/interface.go:3-24 | any request takes both deployments to the same state with the same answer exactly under its condition |
| `RequestAgreement.DeploymentsAgreeIff` | cmd/mbop/mbop.go:36-53 | whole runs have the same states and answers exactly when every request meets its condition when it is made |
| `Paging.OrderIsDetermined` | internal/store/postgres_store_impl.go:24 | every strictly newest-first arrangement of the organization's rows is the same one |
| `Paging.PagesListEverythingOnce` | internal/store/postgres_store_impl.go:20-52 | for every page size the pages in turn list each registration exactly once, newest first |
| `Paging.PageSizes` | internal/store/postgres_store_impl.go:25-26 | every page reports the same count and is full while rows are left |
| `Cidr.MaskComparesPrefixes` | internal/store/postgres_store_impl.go:205 | the bytewise mask test compares the addresses as numbers without their host bits |
| `Cidr.ContainsIsInterval` | internal/store/postgres_store_impl.go:205 | containment is membership in the interval that RFC 4632, section 3.1, gives the block |
| `Allowlist.ScanAnswersCoverage` | internal/store/postgres_store_impl.go:197-210 | when every block parses, the scan answers whether some block covers the address |
| `Allowlist.ScanStopsAt` | internal/store/postgres_store_impl.go:197-210 | the first block that does not parse or covers the address decides |
| `Allowlist.MemoryBadBlock` | internal/store/in_memory_store_impl.go:83-91 | an unparsable block before any that covers the address panics the slice store |
| `Allowlist.TableBadBlock` | internal/store/postgres_store_impl.go:176-211 | among the blocks of the organization and of `system` it is a reported error |
| `Allowlist.ChecksCompared` | internal/store/postgres_store_impl.go:176-211 | on the same blocks the slice store answers for all of them, the table for those owned by the organization or by `system` |
| `Allowlist.MemoryDenyBalance` | internal/store/in_memory_store_impl.go:96-105 | a removal takes one copy of the pair off the multiset, or fails because there is none |
| `Allowlist.TableDenyBalance` | internal/store/migrations/5_add_allowlist.up.sql:7-9 | under the primary key the table's removal is the slice store's |
| `Allowlist.TableAllowKeepsKey` | internal/store/migrations/5_add_allowlist.up.sql:7-9 | an insert keeps the key and is refused exactly when the pair is stored |
| `Certs.ReadsBackIff` | internal/handlers/certs.go:10-19 | the name behind a prefix and the marker is read back exactly when the prefix has no marker |
| `Certs.GetCertCNMeans` | internal/handlers/certs.go:10-19 | on every header: the text behind the first marker that no newline follows, and nothing exactly when there is none |
| `Certs.ReadIsSuffix` | internal/handlers/certs.go:10-19 | what is read is the text of the header behind a marker |
| `HandlerSteps.Normalise` | internal/handlers/allowlist_handler.go:40-42 | a text with a slash is kept, any other gets `/32` appended; the stored text always contains a slash |
| `Handlers.RegistrationCreateHandler` | internal/handlers/registration_handler.go:79-154 | on either store, the registrations and the answer of the step, the blocks untouched |
| `Handlers.RegistrationDeleteHandler` | internal/handlers/registration_handler.go:156-181 | the step that goes on after answering an empty uid, on either store |
| `Handlers.RegistrationListHandler` | internal/handlers/registration_handler.go:36-77 | guards, defaults and the listed fields, on either store |
| `Handlers.AuthV1Handler` | internal/handlers/auth_v1_handler.go:34-70 | the step whose answer `Runs.AuthOutcome` spells out, on either store |
| `Handlers.AllowlistCreateHandler` | internal/handlers/allowlist_handler.go:26-59 | normalised, parsed and stored, or the refusal, on either store |
| `Handlers.AllowlistDeleteHandler` | internal/handlers/allowlist_handler.go:61-88 | removed as written, or the refusal, on either store |
| `Handlers.AllowlistListHandler` | internal/handlers/allowlist_handler.go:90-118 | the blocks the store lists for the organization |
| `Handlers.Serve` | cmd/mbop/mbop.go:36-53 | any request handed to its handler takes the store and the answer through the step of the state machine, and whatever it allocates is fresh |
| `Handlers.ServeAll` | cmd/mbop/mbop.go:36-53 | requests one after the other take the store and the answers through the run of the state machine, on either store |
| `Runs.RegisterStatusIff` | internal/handlers/registration_handler.go:79-154 | on either store 201 exactly for an entitled request without a clash and 409 exactly for one with a clash; a 201 adds the record asked for, any other answer changes nothing |
| `Runs.RecordedAs` | internal/handlers/registration_handler.go:127-143 | after a 201 the new record has the organization and username of the identity, the name of the certificate and the display name asked for |
| `Runs.RegisterRefusals` | internal/handlers/registration_handler.go:83-125 | every refusal status exactly with its reason: the gate, the body, the admin, the username and the certificate, in this order |
| `Runs.UnregisterStatusIff` | internal/handlers/registration_handler.go:156-181 | on either store all statuses exactly: 400 without a uid, 403 for others than admins, 204 when a record has the keys, written out for each store, else 404; a 204 takes one record away |
| `Runs.AuthOutcome` | internal/handlers/auth_v1_handler.go:34-70 | on any records: the first one with the name is answered as organization and display name, id -1, active admin of type `system`; 400 without a name, 401 without a record, passed on for other users modules |
| `Runs.AuthReadsLedger` | internal/handlers/auth_v1_handler.go:34-70 | authentication answers the owner the ledger of responses credits, field by field |
| `Runs.RunKeepsBooks` | internal/handlers/registration_handler.go:79-181 | over every run on the table the rows agree with the ledger kept from the responses |
| `Runs.LedgerNamed` | internal/handlers/registration_handler.go:108-111 | no run enters an empty name in the ledger |
| `Runs.AuthFollowsHistory` | internal/handlers/auth_v1_handler.go:37-65 | after every run from an empty table authentication answers what the responses so far say |
| `Runs.OwnerStands` | internal/handlers/auth_v1_handler.go:37-65 | no request but a deletion by the owner's admin changes whom a certificate answers |
| `Runs.RegisteredUntilDeleted` | internal/handlers/registration_handler.go:138-153 | after a 201, authentication with that name answers the organization through every run without its deletion |
| `Runs.DeletedIsUnknown` | internal/handlers/registration_handler.go:170-180 | after a 204 from the table, authentication with that name answers 401 |
| `Runs.MemoryUnregisterKeepsBooksIff` | internal/store/in_memory_store_impl.go:69-78 | on the slice store a deletion keeps the ledger exactly under the agreement condition |
| `Runs.MemoryRunKeepsBooksIff` | internal/store/in_memory_store_impl.go:43-78 | over a run on the slice store the records agree with the ledger all the way exactly when every admin's deletion meets that condition when it is made |
| `Runs.MemoryAuthFollowsHistory` | internal/handlers/auth_v1_handler.go:37-65 | after such a run authentication on the slice store answers the ledger |
| `Runs.RunKeepsNamed` | internal/handlers/registration_handler.go:108-111 | on either store every registration made through the handlers has a uid |
| `Runs.EmptyUidDeletion` | internal/handlers/registration_handler.go:157-170 | called with an empty uid, which the router prevents, the handler answers 400 on both stores; the table is left alone, the slice store loses the organization's oldest registration |
| `Runs.ListStatuses` | internal/handlers/registration_handler.go:36-77 | every status exactly with its reason |
| `Runs.MemoryListing` | internal/handlers/registration_handler.go:55-76 | the slice store shows all records of the organization, oldest first, field by field |
| `Runs.TableListing` | internal/handlers/registration_handler.go:43-76 | the table counts them all and shows a page from the newest backwards, a hundred from the start by default, field by field |
| `Runs.ListingShowsOwn` | internal/handlers/registration_handler.go:36-77 | answered 200 exactly to an admin with usable parameters; it counts and shows only the organization's registrations |
| `AllowlistRuns.AllowStatusIff` | internal/handlers/allowlist_handler.go:26-59 | on either store every status exactly, and the pair that a 201 adds, with its `/32` |
| `AllowlistRuns.DenyStatusIff` | internal/handlers/allowlist_handler.go:61-88 | on either store every status exactly, and how many copies a 204 leaves |
| `AllowlistRuns.BlocksListed` | internal/handlers/allowlist_handler.go:90-118 | an admin sees all blocks of the slice store, the organization's own of the table |
| `AllowlistRuns.ListsAgreeIff` | internal/handlers/allowlist_handler.go:90-118 | the two stores list the same blocks exactly when all stored blocks are the organization's own |
| `AllowlistRuns.RunConserves` | internal/handlers/allowlist_handler.go:40-88 | over every run on either store all blocks parse, and multiplicity is additions minus removals |
| `AllowlistRuns.AllowedIffOpen` | internal/store/in_memory_store_impl.go:83-91 | after every run from sound blocks, whoever stored them, the check answers, without error or panic, and allows exactly the addresses some block left over from the start and the run covers |
| `AllowlistRuns.AllowedIffInOpenInterval` | internal/store/postgres_store_impl.go:176-211 | for a parser of valid networks, after every run from sound blocks an address is allowed exactly when its number lies in the interval of a block left over |
| `AllowlistRuns.BareBlockNotFound` | internal/handlers/allowlist_handler.go:68-82 | in every reachable state a block without a slash is answered 404 and nothing changes |
| `AllowlistRuns.DenyUndoesAllowIff` | internal/handlers/allowlist_handler.go:40-88 | removing the text just added restores the blocks exactly when it has a slash; the normalised text always does |
| `AllowlistRuns.DuplicateBlocks` | internal/store/migrations/5_add_allowlist.up.sql:7-9 | a second copy is answered 500 by the table; the slice store keeps it, and one removal leaves the block in force |
| `Migrations.Backfill` | internal/store/migrations/2_add_display_name.up.sql:4-16 | the row-by-row loop gives every row without a name its uid and leaves the others alone |
| `Migrations.MigrationKeepsRows` | internal/store/migrations/2_add_display_name.up.sql:1-16 | no row, id, uid or organization is lost or changed |
| `Migrations.NamesUniqueIffUidsUnique` | internal/store/migrations/2_add_display_name.up.sql:18-21 | the new constraint can be declared exactly on tables with unique uids |
| `Migrations.RelaxedConstraintHolds` | internal/store/migrations/4_display_name_unique_per_org.up.sql:1-7 | what migration 2 declares implies what migration 4 declares |
| `Migrations.RestoringFailsIff` | internal/store/migrations/4_display_name_unique_per_org.down.sql:4-6 | the way back works exactly when no two organizations share a name |
| `AccountQueries.CreateSearchString` | internal/service/ocm/ocm_impl.go:188-200 | the text is the printed list of username comparisons |
| `AccountQueries.CreateOrgAdminSearchString` | internal/service/ocm/ocm_impl.go:202-214 | the text is the printed list of pairs of account and role |
| `AccountQueries.CreateAccountsV3UsersSearchString` | internal/service/ocm/ocm_impl.go:216-218 | the text is the printed organization comparison |
| `AccountQueries.CreateAccountsV3UsersBySearchString` | internal/service/ocm/ocm_impl.go:220-236 | the text is the printed conjunction of the organization and the wanted tests |
| `SearchText.ParsePrint` | internal/service/ocm/ocm_impl.go:188-236 | printed alternatives of conjunctions are parsed back exactly, with the intended precedence |
| `SearchText.ParsePrintIff` | internal/service/ocm/ocm_impl.go:188-236 | and exactly when no compared text contains a quote |
| `QueryMeaning.UsernameSearchSelects` | internal/service/ocm/ocm_impl.go:188-200 | whatever the names contain but quotes, the search selects exactly the accounts whose username is listed; without names, every account |
| `QueryMeaning.UsernameSearchReadBackIff` | internal/service/ocm/ocm_impl.go:196 | the list is read back exactly when no name contains a quote |
| `QueryMeaning.UsernameSearchFindsListedIff` | internal/service/ocm/ocm_impl.go:56-80 | exactly the listed accounts are found unless the list is empty and there are accounts |
| `QueryMeaning.ListTestsAgreeIff` | internal/service/catchall/ephemeral.go:119-135 | list search and list test agree on everybody exactly when somebody is listed and no other name folds to a listed one |
| `QueryMeaning.SameListSelectionIff` | internal/service/catchall/ephemeral.go:119-135 | for quote-free names they select the same people from every list exactly then |
| `QueryMeaning.OrgAdminSearchSelects` | internal/service/ocm/ocm_impl.go:202-214 | the search selects exactly the admin-role bindings of the listed accounts; without accounts, every binding |
| `QueryMeaning.EmptySearchSelectsAll` | internal/service/ocm/ocm_impl.go:202-214 | without accounts the text is empty and selects every binding |
| `QueryMeaning.LikeIsPrefixIff` | internal/service/ocm/ocm_impl.go:224 | the pattern means the prefix, on all texts, exactly when it contains no wildcard |
| `QueryMeaning.BodySearchSelects` | internal/service/ocm/ocm_impl.go:220-236 | the search selects the organization's accounts that pass the wanted tests |
| `QueryMeaning.BackendsAgreeIff` | internal/service/catchall/ephemeral.go:105-118 | for every organization and body the two backends agree on everybody exactly under a condition on the texts: emptiness, wildcards, and whether the wanted address fits the wanted start |
| `QueryMeaning.SameSelection` | internal/service/catchall/ephemeral.go:105-118 | under that condition account search and direct filter select the same people in the same order |
| `QueryMeaning.SameSelectionIff` | internal/service/ocm/ocm_impl.go:220-236 | on every list they do so exactly for texts without quotes under that condition; for a body that contradicts itself, exactly when the printed text is read and selects nobody |
| `FindUsers.Keep` | internal/service/catchall/ephemeral.go:86-135 | the tests of one iteration decide the declarative condition |
| `FindUsers.CollectUsers` | internal/service/catchall/ephemeral.go:78-141 | error exactly on a bad flag and a non-empty list, else the first matches up to the limit in list order |
| `FindUsers.FindUsersBy` | internal/service/catchall/ephemeral.go:71-150 | the same with "des": a permutation of that page in which no username is followed by a lexicographically greater one |
| `FindUsers.SelectedMeans` | internal/service/catchall/ephemeral.go:86-135 | the tests of all parameters, written out one by one |
| `FindUsers.FlagFailsMeans` | internal/service/catchall/ephemeral.go:80-85 | the flag is refused exactly when it is none of thirteen texts |
| `FindUsers.CompareMeans` | internal/service/catchall/ephemeral.go:143-147 | the comparison is positive exactly for the lexicographically greater text |
| `FindUsers.SortSlice` | internal/service/catchall/ephemeral.go:143-147 | the array becomes a descending permutation of itself |
| `FindUsers.SortedAnswerIsDetermined` | internal/service/catchall/ephemeral.go:143-147 | with distinct usernames the sorted page is determined |
| `Models.Users.AddUser` | internal/models/user.go:94-96 | the user is appended |
| `Models.Users.RemoveNonOrgAdmins` | internal/models/user.go:99-108 | exactly the flagged users stay, in order |
| `OrgAdmins.GetIsInternal` | internal/service/ocm/ocm_impl.go:152-162 | some label has the key and the value "true" |
| `OrgAdmins.ResponseToUsers` | internal/service/ocm/ocm_impl.go:164-186 | one user per account, in order |
| `OrgAdmins.AccountsDescribed` | internal/service/ocm/ocm_impl.go:168-182 | every field of the user comes from its field of the account |
| `OrgAdmins.GetOrgAdmin` | internal/service/ocm/ocm_impl.go:82-106 | the map holds exactly the accounts of the bindings the search found |
| `OrgAdmins.MergeOrgAdmins` | internal/handlers/accounts_v3_users_handler.go:55-62 | flags are set where the map has the id, and nowhere cleared |
| `OrgAdmins.MergedFlagIff` | internal/handlers/accounts_v3_users_handler.go:55-62 | the merged flag is the justified one exactly unless an unbound user came flagged, which no client makes happen |
| `OrgAdmins.FlagsFollowHits` | internal/handlers/accounts_v3_users_handler.go:55-62 | whatever bindings were found, a user built from an account leaves the merge flagged exactly when one of them names its id |
| `OrgAdmins.UsersToV3Response` | internal/handlers/helpers.go:113-131 | one response per user, in order, with the fields carried over |
| `OrgAdmins.FlagsAreJustified` | internal/service/ocm/ocm_impl.go:82-106 | after search, map and merge a user is flagged exactly when an admin binding of the account exists, also for no accounts |
| `OrgAdmins.CleanAnswer` | internal/handlers/accounts_v3_users_handler.go:55-71 | for quote-free ids the answer from the found bindings is the one the stored admin bindings justify |
| `OrgAdmins.AccountsV3Users` | internal/handlers/accounts_v3_users_handler.go:42-72 | 500 exactly when one of the two searches is rejected; else the found accounts, flagged by the found bindings and filtered on request, which for quote-free ids are the justified flags |
| `OrgAdmins.AnswerShows` | internal/handlers/accounts_v3_users_handler.go:54-71 | without the filter the answer shows every account, field by field, with its justified flag |
| `OrgAdmins.UsersByNameRefusals` | internal/handlers/users_v1_handler.go:17-50 | every status exactly with its reason, and when no users are sent |
| `OrgAdmins.UsersByName` | internal/handlers/users_v1_handler.go:14-68 | the status written first and the users in the body for every list, body and search result |
| `OrgAdmins.UsersByNameShows` | internal/handlers/users_v1_handler.go:17-66 | for quote-free names and ids, the listed accounts, field by field, with justified flags; all accounts for an empty list, and after the 400 to an unreadable body |
| `OrgAdmins.AdminAnswer` | internal/handlers/accounts_v3_users_handler.go:64-68 | with the filter the answer is exactly the bound accounts in order, field by field |
| `Mailer.RangeAndReplace` | internal/service/mailer/helpers.go:104-109 | the loop leaves the substituted values in the same array and a header that ends after the last looked-up name |
| `Mailer.Email.LookupEmailsForUsernames` | internal/service/mailer/helpers.go:17-124 | the three lists, still in their arrays, and the error after the call, for every users module |
| `Mailer.LostTail` | internal/service/mailer/helpers.go:104-109 | the full substitution is the result followed by a tail of names that were not looked up |
| `Mailer.CompleteExactlyWhen` | internal/service/mailer/helpers.go:104-109 | the result is the full substitution exactly when no name or the last name was looked up |
| `Mailer.NeverEmptied` | internal/handlers/send_email.go:43-51 | a list is empty afterwards only if it was before, so the fallback recipient serves only those emails |
| `Mailer.LookupMeans` | internal/service/mailer/helpers.go:17-124 | for every users module: with a service the address of the last entry about a name, or empty, or a failed call; the mock's domain; failure for any other module; all other entries stay and the list is cut behind the last name |
| `Mailer.MockSettles` | internal/service/mailer/helpers.go:95-121 | under the mock module all kept and all lost entries are addresses, and a second call changes nothing |
| `Mailer.LastEntryDecides` | internal/service/mailer/helpers.go:62-64 | the last entry of a username decides its address |
| `Mailer.UnknownBecomesEmpty` | internal/service/mailer/helpers.go:57-64 | a username the service does not know is replaced by the empty address |
| `AmsLookup.LookupThroughAccounts` | internal/service/mailer/helpers.go:46-64 | through the search text every name gets the address of an account that carries it, or the empty address |
| `AmsLookup.RecipientsResolved` | internal/service/mailer/helpers.go:17-109 | for quote-free names the lookup succeeds, and each list is resolved entry by entry and cut behind its last name |
| `UsernamesQuery.CreateUsernamesQuery` | internal/service/keycloak-user-service/user_service.go:206-218 | the comma join of the list without its leading empty names |
| `UsernamesQuery.ReadBackIff` | internal/service/keycloak-user-service/user_service.go:206-218 | splitting gives the list back exactly when it is not empty, comma-free, and starts with a name or is the single empty name |
| `QueryOrder.Package.CreateV3QueryOrder` | internal/service/ocm/ocm_impl.go:252-260 | the base column followed by every direction seen so far: the previous text, and a space and the direction when there is one |
| `QueryOrder.OrderIsIntendedIff` | internal/service/ocm/ocm_impl.go:252-260 | a call returns the intended order exactly when no earlier call carried a direction |

## Left out

- HTTP transport, JSON encoding, routing, logging and the wording of messages: a handler is its status, its payload and its effect on the store.
- Keycloak, the OCM SDK, AWS SES, JWK and JWT clients, and the SDK's own paging and ordering: foreign calls; the account service is an evaluator of the search text over any collection.
- `SDKMock`, the decoding of Keycloak attributes, `keycloakResponseToUsers`, `getURL`, configuration, status and token handlers: no property beyond one body.
- Registration.ID and `CreatedAt` of allowlist blocks: no store operation compares or selects by them; the generated id is assumed never to repeat.
- PostgreSQL errors other than the unique constraints, connection failures and scan errors, among them the null usernames that migration 3 leaves in older rows.
- Which constraint a refused insert names: the detail text of the error is not modelled.
- Concurrent requests on the slice store: requests are steps one after the other, as the Go code takes no lock.
- InMemoryStores.InMemoryStore.Find: does not model that the returned copy shares its extra map with the store.
- FindUsers.SortSlice: the library's sort is stood for by selection sort; callers may rely only on a descending permutation.
- QueryMeaning.SameSelection: the sufficient half, for texts without quotes; `SameSelectionIff` decides every text.
- QueryMeaning.SameListSelectionIff: promises nothing about names with quotes, which are not read back as meant (`UsernameSearchReadBackIff`).
- OrgAdmins.UsersByName: does not model the names that a body with a wrong type inside leaves behind, nor the order of the answer.
- OrgAdmins.AccountsV3Users: for ids with quotes the flags follow whatever the search found, not the stored bindings.
