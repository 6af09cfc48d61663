# Batch group creation in the SSSD InfoPipe responder

This project models the `CreateGroups` handler of SSSD's InfoPipe responder
(`server/infopipe/infopipe_groups.c`). The handler takes a list of group names and a domain name over the system bus.
It gates the request in this order:

1. argument parsing;
2. a hard-coded, case-insensitive test that the domain is `LOCAL`;
3. a domain-map lookup;
4. a permission check.

It then copies the names into a per-request context and asks the system database for a transaction.
The store's callbacks then drive the creation. When the transaction starts, the store calls `infp_do_group_create`.
That function issues `sysdb_add_group` for `groupnames[index]`.
Each completion does one of two things:

- On success it advances the cursor and issues the next creation. After the last name it commits and sends a success reply.
- On the first failure it finishes the transaction with the failure status, replies only when the status is `EEXIST`, and frees the context.

The model has two modules:

- `InfopipeGroups` (`infopipe_groups.dfy`) holds the imperative part.
  - `CreateGroupCtx` is a class for the mutable per-request context (`infp_creategroup_ctx`).
  - `DoGroupCreate` and `OnCompletion` are methods that update it in place. They log every effect on the store and on the bus.
  - `GroupsCreate` models the gating, and `CopyNames` the copy loop.
  - The class invariant `Valid()` ties the context to the reference semantics. It always states `index <= nameCount`, and then one clause per phase:
    - `Ready` (`ReadyToIssue`): the log holds the creations of `groupnames[..index]`, all of which succeeded.
    - `InFlight` (`CreationInFlight`): the log holds the creations of `groupnames[..index + 1]`; the last of them awaits its completion.
    - `Freed` (`Finished`): the log is exactly the reference run for the store's answers, and the cursor is at the first failure or past the last name.
- `GroupCreateSpec` (`batch_spec.dfy`) holds the reference semantics.
  - `Run` states the callback chain as a fold over the names.
  - The lemmas give its closed form in terms of the first creation that failed, and derive the promised properties from it.

The collaborators are inputs:

- The store is the status it returns from `sysdb_transaction` and `sysdb_add_group`, and the status it passes to the completion callback.
- The domain map is a `map<string, Domain>`.
- The permission engine is a predicate on the caller and the domain.

Replies are values of `Reply`. A gating reply (invalid-args or access-denied) is the `reply` result of `GroupsCreate`, and no context exists then. A reply from the creation chain (file-exists or method-return) is a `SendReply` entry in the context's log.

The domain map is looked up with the domain name exactly as the caller spelled it. In the model, a spelling such as `local` passes the case-insensitive test but resolves only if the map holds that exact key. The comparator of the real domain map is not part of this model.

Three behaviours of the code are easy to miss:

- A domain other than `LOCAL` gets an access-denied reply, not an invalid-arguments reply.
- A store failure other than `EEXIST` during creation sends no reply.
- An empty name list makes `infp_do_group_create` read `groupnames[0]` out of bounds (line 95 of `infopipe_groups.c`). What follows is undefined, and the model does not cover it (see "Left out").

## Model

| member | source | states |
|---|---|---|
| `InfopipeGroups.GroupsCreate` | server/infopipe/infopipe_groups.c:105-226 | The checks short-circuit in order: a parse failure gives invalid-args with the parser's message; a non-LOCAL domain gives access-denied; an unresolved domain gives invalid-args "Invalid domain."; a denied permission gives access-denied. A transaction is requested exactly when all four pass, and then no reply is sent. A failed transaction request returns its status and drops the context. Otherwise the new context holds a newly allocated copy of the names, has the resolved domain, `index = 0`, and nothing done to the store yet. |
| `InfopipeGroups.CopyNames` | server/infopipe/infopipe_groups.c:165-181 | The copied array is newly allocated, has exactly as many entries as the request, and equals the request's names element for element. |
| `InfopipeGroups.LocalDomainSpellings` | server/infopipe/infopipe_groups.c:144-147 | The domain test accepts exactly five-letter names that spell LOCAL with each letter in either case. |
| `InfopipeGroups.CreateGroupCtx.constructor` | server/infopipe/infopipe_groups.c:118-185 | A fresh context (the zeroed allocation of line 118) satisfies the invariant. It holds the resolved domain (line 149), the copied names with `nameCount` equal to their number (lines 165-173), `index = 0` (line 185), no transaction handle and an empty log. |
| `InfopipeGroups.CreateGroupCtx.DoGroupCreate` | server/infopipe/infopipe_groups.c:85-103 | Records the transaction handle and issues the creation of `groupnames[index]`; it requires `index < nameCount`. If the call cannot be issued, the transaction is finished with that return code, no reply is sent, and the context is freed. The invariant is kept. |
| `InfopipeGroups.CreateGroupCtx.OnCompletion` | server/infopipe/infopipe_groups.c:42-83 | On a non-EOK status the transaction is finished with that status, a file-exists reply naming `groupnames[index]` is sent only for EEXIST, and the context is freed with the cursor unchanged. On EOK the cursor grows by exactly one. The next name is then issued while `index < nameCount`; otherwise the transaction is committed and a success reply follows. The transaction handle is unchanged. |
| `InfopipeGroups.CreateGroupCtx.InFlightMatchesReplay` | server/infopipe/infopipe_groups.c:69-74 | While a creation is in flight, the context's log is exactly the reference run for the answers received so far. |
| `GroupCreateSpec.RunPending` | server/infopipe/infopipe_groups.c:69-74 | While every answer so far is a success, the run has sent names in input order up to and including the one in flight, and has finished nothing. |
| `GroupCreateSpec.RunFailsAt` | server/infopipe/infopipe_groups.c:50-67 | If the first failure is at position k, the run sends `names[0..k+1)` in order, the failing name included. Then come that failure's effects: the finish of the transaction with its status and, for an EEXIST completion only, the file-exists reply. Nothing follows. |
| `GroupCreateSpec.RunCommits` | server/infopipe/infopipe_groups.c:76-82 | When every creation succeeds, the run sends all names in order, then commits, then sends the success reply. |
| `GroupCreateSpec.ReplayClosedForm` | server/infopipe/infopipe_groups.c:42-103 | Every run has one of three forms, determined by the first failed answer: failure, commit, or one creation still in flight. |
| `GroupCreateSpec.CommitIffAllSucceeded` | server/infopipe/infopipe_groups.c:76-77 | The transaction is finished with EOK if and only if all `name_count` creations succeeded. |
| `GroupCreateSpec.SuccessReplyIffAllSucceeded` | server/infopipe/infopipe_groups.c:78-80 | A method-return reply is sent if and only if all `name_count` creations succeeded. |
| `GroupCreateSpec.AttemptsFollowInputOrder` | server/infopipe/infopipe_groups.c:85-96 | The names sent to the store are `names[0..m)` in input order, where m is the first failure plus one, or all names. After them no creation is issued, and a finish of the transaction can only come immediately after the last creation. |
| `GroupCreateSpec.TransactionFinishedOnce` | server/infopipe/infopipe_groups.c:50-82 | The transaction is finished at most once, and no creation is issued after it is finished. |
| `GroupCreateSpec.ConflictReplyNamesFailingEntry` | server/infopipe/infopipe_groups.c:53-61 | When the first failure is an EEXIST completion at position k, the run ends by finishing with EEXIST. It then sends a file-exists reply "Group [names[k]] already exists on domain [domain name]". |
| `GroupCreateSpec.OtherFailureSendsNoReply` | server/infopipe/infopipe_groups.c:50-103 | Any other first failure ends the run by finishing the transaction with that status, and no reply is ever sent. This covers both a non-EEXIST completion and a failed `sysdb_add_group` call. |

## Left out

- Message marshalling and transport: parsing the bus arguments, building the reply messages and `sbus_conn_send_reply`. The outcome of parsing is an input. A gating reply is the `reply` result of `GroupsCreate`; a reply from the creation chain is a `SendReply` entry in the context's log.
- Allocation failures. The `ENOMEM` and `EIO` branches of `talloc_zero`, `infp_req_init`, `talloc_array`, `talloc_strdup` and reply construction are not modelled, and neither is freeing memory. A freed context is a phase.
- The internals of `sysdb_transaction`, `sysdb_add_group` and `sysdb_transaction_done`. The store's rollback of earlier creations on a non-EOK finish is not modelled.
- `btreemap_get_value` and `infp_get_permissions` are abstracted as a map and a predicate. The object type, action and attribute arguments of the permission query are fixed by the handler and are not represented.
- Empty name list: the code reads `groupnames[0]` without checking `index < name_count`, so an empty batch reads out of bounds when the transaction starts. `InfopipeGroups.CreateGroupCtx.DoGroupCreate` requires `index < nameCount`. As a result, the start of the transaction is not modelled for an empty batch. In the code, if that out-of-bounds creation completed with EOK, `index` would become 1 with `name_count` 0, and the test `index < name_count` would fail, so the transaction would commit and a success reply would be sent; the model claims nothing about this path.
- The `infp_groups_delete`, `infp_groups_add_members`, `infp_groups_remove_members` and `infp_groups_set_gid` handlers only reply "Not yet implemented".
- Debug logging.
- Integer widths: `name_count` and `index` are `uint32_t`. In the model, which covers only non-empty lists, the cursor never exceeds the name count, so no wrap-around is possible.
