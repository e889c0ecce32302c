# audited: the audit-record engine and the upgrade planner

This project is a Dafny model of the core of `audited`, a Ruby library that
records every change to an ActiveRecord model as a row of an `audits` table.
Each audit row holds:

- the audited record (`auditable_type`, `auditable_id`);
- the action (`create`, `update` or `destroy`);
- the diff of the change (`audited_changes`);
- a per-record version number;
- the user who made the change;
- a request uuid.

The model covers:

- **Diffs** (`audits.dfy`). `new_attributes` and `old_attributes` split a
  stored diff into its after and before values. A diff entry is an
  `[old, new]` pair or, in the legacy format, a single value. Keys come out
  as Strings whatever their kind in the diff.
- **Ruby values and hashes** (`ruby_values.dfy`). A Ruby Hash is an
  insertion-ordered list of pairs, with Symbol and String keys kept apart.
  `h[k] = v` replaces in place or appends. `merge!` puts the pairs of the
  other hash in order.
- **Trail queries** (`scopes.dfy`). These are the ActiveRecord scopes over
  the table, given as a sequence of rows:
  - `ascending` and `descending`;
  - `creates`, `updates` and `destroys`;
  - `up_until`, `from_version`, `to_version` and `auditable_finder`;
  - `ancestors`;
  - the two ways of allocating the next version number.

  SQL semantics are explicit:
  - a comparison with a NULL column never holds;
  - `where(col: nil)` matches NULL;
  - NULL versions sort below every number.
- **Replaying a trail** (`reconstruction.dfy`). `reconstruct_attributes`
  folds each audit's new values into one hash, last writer wins, and tags
  it with the `:version` of the last audit. The method keeps the source's
  loop with its in-place accumulator. It is proved against a recursive
  fold, and the fold is proved against an independent "last change"
  definition.
- **Revisions** (`revision.dfy`). `assign_revision_attributes` writes a
  hash onto a live record (a `class`):
  - it duplicates the record when it is frozen;
  - it writes columns directly and other names through their setters;
  - it skips names the record has no writer for.

  `revision` builds the record as it stood at an audit's version.
- **The request store and `as_user`** (`ambient.dfy`). The store is a class
  holding a map. `as_user` sets the audited user for a block and clears it
  on both normal return and raise.
- **Creating an audit** (`audit_record.dfy`). The record being created is a
  class. It has the `user=`/`user` pair, which keeps the model reference
  and the username exclusive, and the three `before_create` callbacks: the
  version number, the user fallback chain and the request uuid fallback
  chain. `set_remote_address` is defined but is not among the callbacks;
  the model keeps it separate.
- **The upgrade planner** (`upgrade_planner.dfy`). `migrations_to_be_applied`
  maps the audits table's column names and index column lists to the
  ordered list of migrations still to run.

## Model

| member | source | states |
|---|---|---|
| RubyValues.LookupMerge | lib/audited/audit.rb:34 | after `merge!`, a key takes its value from the merged-in hash when that hash has the key, and keeps its old value otherwise |
| RubyValues.LookupPut | lib/audited/audit.rb:34 | `h[k] = v` makes `k` read `v` and leaves every other key's value as it was |
| RubyValues.Put | lib/audited/audit.rb:72 | assigning a key adds it to the key set and keeps keys unique; a present key is replaced in place (every position keeps its key), a new key is appended at the end (insertion order) |
| Audits.Extract | lib/audited/audit.rb:70-83 | the `inject` fold yields a hash with unique keys, and those keys are exactly the String forms of the names the diff mentions |
| Audits.ExtractLookup | lib/audited/audit.rb:70-83 | under a String name, the extracted hash holds the chosen half of the last diff entry with that name; it holds nothing under any other key, including every Symbol |
| Audits.NewAttributesLookup | lib/audited/audit.rb:70-75 | `new_attributes` maps each changed name to the last element of an Array value, or to the value itself; a nil diff gives an empty hash |
| Audits.OldAttributesLookup | lib/audited/audit.rb:78-83 | `old_attributes` maps each changed name to the first element of an Array value, or to the value itself; a nil diff gives an empty hash |
| Audits.SameKeys | lib/audited/audit.rb:70-83 | `new_attributes` and `old_attributes` have the same key set: the String forms of the diff's names; both are empty for a nil diff |
| Audits.PairDiffRoundTrip | lib/audited/audit.rb:70-83 | an `[old, new]` entry is split back into its halves: `new` in `new_attributes`, `old` in `old_attributes` |
| Audits.SymbolKeyedExample | lib/audited/audit.rb:70-83 | `{a: [1, 2], b: [3, 4]}` gives `{'a' => 2, 'b' => 4}` and `{'a' => 1, 'b' => 3}`, with the keys as Strings in diff order |
| Scopes.Ascending | lib/audited/adapters/active_record/audit.rb:43 | `ascending` is sorted by version (NULL lowest) and is a permutation of the rows |
| Scopes.Descending | lib/audited/adapters/active_record/audit.rb:44 | `descending` is sorted by version, highest first, and is a permutation of the rows |
| Scopes.Creates | lib/audited/adapters/active_record/audit.rb:45 | a row is kept iff its action is `create`, as often as it occurs in the table |
| Scopes.Updates | lib/audited/adapters/active_record/audit.rb:46 | a row is kept iff its action is `update`, as often as it occurs in the table |
| Scopes.Destroys | lib/audited/adapters/active_record/audit.rb:47 | a row is kept iff its action is `destroy`, as often as it occurs in the table |
| Scopes.UpUntil | lib/audited/adapters/active_record/audit.rb:49 | a row is kept iff its `created_at` is non-NULL and at most the bound (inclusive), as often as it occurs |
| Scopes.FromVersion | lib/audited/adapters/active_record/audit.rb:50 | a row is kept iff its version is non-NULL and at least the bound (inclusive), as often as it occurs |
| Scopes.ToVersion | lib/audited/adapters/active_record/audit.rb:51 | a row is kept iff its version is non-NULL and at most the bound (inclusive), as often as it occurs; filtering keeps ascending order |
| Scopes.AuditableFinder | lib/audited/adapters/active_record/audit.rb:52 | a row is kept iff its `auditable_id` and `auditable_type` both equal the given ones (nil matching NULL), as often as it occurs; filtering keeps ascending order |
| Scopes.Ancestors | lib/audited/adapters/active_record/audit.rb:54-56 | `ancestors` holds exactly the rows of the same record whose version is at most this audit's, each as often as it occurs in the table, sorted ascending |
| Scopes.AncestorsIncludeSelf | lib/audited/adapters/active_record/audit.rb:54-56 | a stored audit with a version is among its own ancestors |
| Scopes.MaximumVersion | lib/audited/adapters/active_record/audit.rb:79 | `maximum(:version)` is None exactly when every version is NULL; otherwise it is some row's version and no version exceeds it |
| Scopes.MaximumVersionOfSameRows | lib/audited/adapters/active_record/audit.rb:79 | the maximum depends only on which rows are present, not on their order |
| Scopes.DescendingHeadIsMaximum | lib/audited/audit.rb:88 | the first row in descending order carries the maximum version |
| Scopes.AllocatorsAgree | lib/audited/audit.rb:87-90 | the generic allocator (the first version in descending order, or 0, plus one) always equals the ActiveRecord one (`maximum(:version) \|\| 0` plus one) |
| Scopes.SequentialVersions | lib/audited/audit.rb:87-90 | when a record's audits are numbered 1..n, the next one gets n + 1, and after it is stored they are numbered 1..n + 1 |
| Scopes.FinderAppend | lib/audited/adapters/active_record/audit.rb:52 | storing an audit of a record appends it to that record's rows, in table order |
| Reconstruction.ReconstructedLookup | lib/audited/audit.rb:31-38 | the fold holds, for every attribute, the new value from the last audit that changed it; `:version` holds the last audit's version; it holds no other key |
| Reconstruction.ReconstructAttributes | lib/audited/audit.rb:31-38 | the in-place loop computes the fold; each String key reads its last change, `:version` the last audit's version, every key is a String or `:version`, and an empty trail gives an empty hash |
| Reconstruction.LegacySingleValue | lib/audited/audit.rb:31-38 | a legacy single-value diff reconstructs to that value |
| Reconstruction.ReconstructStep | lib/audited/audit.rb:31-38 | replaying one more audit leaves every attribute that audit does not mention unchanged |
| Reconstruction.RevisionAttributesLookup | lib/audited/audit.rb:65 | the hash a revision assigns carries this audit's own version and, for each attribute, the value its last ancestor wrote |
| Revision.Record.Dup | lib/audited/audit.rb:43 | `dup` gives a fresh, unfrozen, unsaved copy with the same values |
| Revision.Record.Write | lib/audited/audit.rb:45-48 | a column name overwrites that column only; any other name the record responds to is passed to its setter, which the model records as receiving the value |
| Revision.AssignSettersValue | lib/audited/audit.rb:45-48 | a name that is a setter but not a column ends with the value of the last pair with that name; every other setter value is unchanged, and no other name receives a value |
| Revision.AssignColumnsValue | lib/audited/audit.rb:41-52 | assignment keeps the set of columns; a named column ends with the value of the last pair with that name; every other column is unchanged |
| Revision.AssignRevisionAttributes | lib/audited/audit.rb:41-52 | the written record is the input, or a fresh unfrozen duplicate when the input is frozen and the hash is non-empty (the input is then untouched); its columns and setter values are those of assigning the hash in order, skipping names with no writer |
| Revision.RevisionOf | lib/audited/audit.rb:62-67 | the revision starts from the existing record, or from a fresh new record built from the column defaults when there is none, and assigns the revision hash onto it; because `tap` returns the record it started from, an existing record keeps its `new_record?` flag, so a restored record is told apart from a destroyed one; a frozen existing record comes back unchanged (the writes land on a discarded duplicate); otherwise the result is unfrozen and its setter values are those of assigning the revision hash |
| Revision.RevisionColumns | lib/audited/audit.rb:62-67 | in a revision, each column holds the value its last ancestor wrote, or keeps its value when no ancestor changed it; a `version` column holds the audit's own version provided no ancestor's diff changed a `version` attribute |
| Ambient.AsUserRun | lib/audited/audit.rb:23-28 | the block runs with the audited user set; the block's outcome, a value or a raised error, passes through unchanged; afterwards the audited user is nil and every other slot is as the block left it |
| Ambient.AsUser | lib/audited/audit.rb:23-28 | on the store, `as_user` returns what the block returns and leaves the audited user nil |
| Ambient.AsUserPassesOutcomeThrough | lib/audited/audit.rb:23-28 | a block returning a value makes `as_user` return it; a raising block makes it raise the same error; either way the audited user is nil afterwards |
| Ambient.NestedAsUserClearsOuter | lib/audited/audit.rb:23-28 | a nested `as_user` clears an enclosing one's user rather than restoring it |
| AuditCreation.UserOf | lib/audited/adapters/active_record/audit.rb:71-73 | the `user` getter gives the model reference when both reference columns are set, else the username |
| AuditCreation.ColumnsFor | lib/audited/adapters/active_record/audit.rb:60-66 | `user=` with a model sets only the reference; with anything else it sets only the username, and the other columns are cleared |
| AuditCreation.UserRoundTrip | lib/audited/adapters/active_record/audit.rb:60-73 | reading `user` after `user = u` gives `u`; the model reference and the username are never both set; nil clears all three columns |
| AuditCreation.AuditRecord.SetUser | lib/audited/adapters/active_record/audit.rb:60-66 | `user = u` stores the columns for `u`, reads back as `u`, and changes no other field |
| AuditCreation.AuditRecord.SetVersionNumber | lib/audited/adapters/active_record/audit.rb:78-81 | the version becomes one more than the largest version among the same record's audits, or 1 when there is none |
| AuditCreation.AuditRecord.SetAuditUser | lib/audited/audit.rb:92-96 | a user already set is kept, else the store's audited user, else its current user; the callback returns nil |
| AuditCreation.AuditRecord.SetRequestUuid | lib/audited/audit.rb:98-101 | a uuid already set is kept, else the store's request uuid, else the fresh token; afterwards the uuid is set |
| AuditCreation.AuditRecord.SetRemoteAddress | lib/audited/audit.rb:103-105 | an address already set is kept, else the store's remote address |
| AuditCreation.AuditRecord.BeforeCreate | lib/audited/audit.rb:14 | the chain runs the version, user and uuid callbacks in order and none halts it; a user already set keeps its columns, otherwise the columns are those `user=` gives for the fallback user; the remote address is left as it was |
| UpgradePlanner.PlanMembers | lib/generators/audited/upgrade_generator.rb:30-60 | a migration is in the plan iff the table needs it, per the migration-by-migration definition of need |
| UpgradePlanner.MigrationsToBeApplied | lib/generators/audited/upgrade_generator.rb:25-61 | each of the eight migrations is emitted iff its column (or index) condition holds, and they come out in the fixed emission order |
| UpgradePlanner.MigrationNames | lib/generators/audited/upgrade_generator.rb:25-61 | the yielded template names: a migration's name appears iff the migration is due, and no name appears twice |
| UpgradePlanner.PlanOrdered | lib/generators/audited/upgrade_generator.rb:30-60 | migrations come out in the fixed order: comment, changes, remote address, request uuid, association step, rename to associated, index order |
| UpgradePlanner.AtMostOneAssociationStep | lib/generators/audited/upgrade_generator.rb:44-56 | no migration or name appears twice; at most one of rename-parent and add-association is chosen; neither is chosen together with rename-to-associated |
| UpgradePlanner.UpToDateNeedsNothing | lib/generators/audited/upgrade_generator.rb:30-60 | an up-to-date table needs no migration |
| UpgradePlanner.OldestTableExample | lib/generators/audited/upgrade_generator.rb:30-60 | a table from before every upgrade gets the whole applicable chain, in order |

## Left out

- YAML serialisation of `audited_changes` (`YAMLIfTextColumnType`) is not modelled. It depends on the live column type and on Rails' YAML coder. Diffs are taken as already-loaded hashes.
- The block form of `reconstruct_attributes` is not modelled. It yields the same hash object at every step, so each yielded value aliases the final one. Only the blockless form, which returns the hash, is modelled.
- Reflection (`constantize`) and the database lookup (`find_by_id`) in `revision` are not modelled. What the lookup found is the `existing` parameter of `Revision.RevisionOf`. A new record starts from given column defaults.
- Revision.Record.Write: a setter the host model defines (`send("#{attr}=", val)`) is modelled as receiving the value and doing nothing else. A setter that also writes columns is not modelled, so AssignColumnsValue's "every other column is unchanged" holds only for setters without such side effects.
- Revision.RevisionColumns: when an ancestor's diff changed a `version` attribute, the hash holds both `'version'` and `:version`. Assignment then writes them in hash order, so which value the `version` column ends with depends on that order. The model states nothing for that case.
- Revision.Record.Dup: does not clear the primary key the way ActiveRecord's `dup` does, because the model has no primary key apart from the attributes.
- The request-intercepting sweeper is not modelled. It fills the store's current user, remote address and request uuid around each controller action. The store's contents are inputs to the callbacks.
- Concurrency is not modelled: the thread-locality of the store and races between two writers allocating the same version. Version allocation is modelled as sequential.
- `SecureRandom.uuid` is the `freshUuid` parameter.
- ORM configuration is not modelled: the polymorphic `belongs_to` associations, `audited_class_names` and `collection_cache_key`.
- AuditCreation.UserOf: the `user` reader returns `Model(user_type, user_id)` without loading it. In the source, the association reads nil when no such record exists, and `user` then falls back to `username`. Database lookups are not modelled.
- AuditCreation.AuditRecord.SetUser: the values written to `user_id`, `user_type` and `username`, and the values `Revision.Record.Write` writes to columns, are stored as given. ActiveRecord would type-cast them to the column's type, and the model has no column types.
- The generator's `copy_templates` is not modelled; it writes migration files. Its reads of the schema (`reset_column_information`, `columns`, `connection.indexes`) are also not modelled. The columns and indexes are inputs.
- The adapter registration files and the MongoMapper adapter are not part of this model.
- Scopes.Descending: rows whose versions tie may come out of the database in any order. The model fixes one order and states only sortedness and permutation.
- Scopes.Ascending: the same holds for `ascending`, and so for `Scopes.Ancestors`. Among rows of one record that share a version, the model fixes an order that follows their order in the table, where the database may return any order. Reconstruction inherits that order: `Reconstruction.ReconstructedLookup` and `Revision.RevisionColumns` take "the last ancestor" in it. Such ties arise only from the version race above.
- NULL ordering follows SQLite and MySQL (NULL lowest). On PostgreSQL a descending query puts NULL first. There the generic allocator and `maximum(:version)` can differ when a record has a NULL-versioned row.
- Audits.Pick: a Hash diff value is not modelled. `Array(hash)` would turn it into its list of pairs. Diff values are Ruby scalars or Arrays.
- Rails-version differences are not modelled: in older Rails a `before_create` callback returning `false` halts the chain. No callback here returns `false`. `AuditCreation.AuditRecord.BeforeCreate` states only that each result is non-false.
