/** The upgrade generator's plan: given the column names of the audits
    table and the column lists of its indexes, the migrations still to be
    applied, in the order they are generated. */
module UpgradePlanner {

  datatype Migration =
    | AddCommentToAudits
    | RenameChangesToAuditedChanges
    | AddRemoteAddressToAudits
    | AddRequestUuidToAudits
    | RenameParentToAssociation
    | AddAssociationToAudits
    | RenameAssociationToAssociated
    | RevertPolymorphicIndexesOrder

  /** The migration's template name. */
  function Name(m: Migration): string {
    match m
    case AddCommentToAudits => "add_comment_to_audits"
    case RenameChangesToAuditedChanges => "rename_changes_to_audited_changes"
    case AddRemoteAddressToAudits => "add_remote_address_to_audits"
    case AddRequestUuidToAudits => "add_request_uuid_to_audits"
    case RenameParentToAssociation => "rename_parent_to_association"
    case AddAssociationToAudits => "add_association_to_audits"
    case RenameAssociationToAssociated => "rename_association_to_associated"
    case RevertPolymorphicIndexesOrder => "revert_polymorphic_indexes_order"
  }

  /** The names `migrations_to_be_applied` yields, one per migration. */
  function Names(plan: seq<Migration>): (r: seq<string>)
    ensures |r| == |plan|
    ensures forall i :: 0 <= i < |plan| ==> r[i] == Name(plan[i])
  {
    if plan == [] then [] else [Name(plan[0])] + Names(plan[1..])
  }

  /** Distinct migrations have distinct template names. */
  lemma NameInjective(m: Migration, n: Migration)
    ensures Name(m) == Name(n) ==> m == n
  {
  }

  /** Position in the fixed emission order. */
  function Rank(m: Migration): nat {
    match m
    case AddCommentToAudits => 0
    case RenameChangesToAuditedChanges => 1
    case AddRemoteAddressToAudits => 2
    case AddRequestUuidToAudits => 3
    case RenameParentToAssociation => 4
    case AddAssociationToAudits => 5
    case RenameAssociationToAssociated => 6
    case RevertPolymorphicIndexesOrder => 7
  }

  /** An index on `associated_id, associated_type`, in that order: the
      column order that the last migration reverts. */
  predicate HasAssociatedIndex(indexes: seq<seq<string>>) {
    exists i :: 0 <= i < |indexes| && indexes[i] == ["associated_id", "associated_type"]
  }

  /** `m` when `c` holds, nothing otherwise. */
  function When(c: bool, m: Migration): seq<Migration> {
    if c then [m] else []
  }

  /** Every rank in `s` lies in `lo .. hi - 1`, strictly increasing. */
  predicate RankedWithin(s: seq<Migration>, lo: nat, hi: nat) {
    && (forall i :: 0 <= i < |s| ==> lo <= Rank(s[i]) < hi)
    && (forall i, j :: 0 <= i < j < |s| ==> Rank(s[i]) < Rank(s[j]))
  }

  lemma ConcatRanked(a: seq<Migration>, b: seq<Migration>, lo: nat, mid: nat, hi: nat)
    requires lo <= mid <= hi
    requires RankedWithin(a, lo, mid) && RankedWithin(b, mid, hi)
    ensures RankedWithin(a + b, lo, hi)
  {
    var r := a + b;
    forall i | 0 <= i < |r| ensures lo <= Rank(r[i]) < hi {
      if i >= |a| {
        assert r[i] == b[i - |a|];
      }
    }
    forall i, j | 0 <= i < j < |r| ensures Rank(r[i]) < Rank(r[j]) {
      if j < |a| {
      } else if i >= |a| {
        assert r[i] == b[i - |a|] && r[j] == b[j - |a|];
      } else {
        assert r[i] == a[i] && r[j] == b[j - |a|];
      }
    }
  }

  lemma WhenRanked(c: bool, m: Migration)
    ensures RankedWithin(When(c, m), Rank(m), Rank(m) + 1)
  {
  }

  /** What the generator reads off the audits table: which of the columns
      it checks exist, and whether an index on `associated_id,
      associated_type` (in that order) exists. */
  datatype Schema = Schema(
    comment: bool, changes: bool, remoteAddress: bool, requestUuid: bool,
    associationId: bool, auditableParentId: bool, associatedId: bool,
    associatedIndex: bool)

  function Inspect(columns: seq<string>, indexes: seq<seq<string>>): Schema
  {
    Schema("comment" in columns, "changes" in columns, "remote_address" in columns,
           "request_uuid" in columns, "association_id" in columns,
           "auditable_parent_id" in columns, "associated_id" in columns,
           HasAssociatedIndex(indexes))
  }

  /** The association step: rename the old parent columns if they are
      there, else add the association columns unless the newer associated
      columns exist; nothing once `association_id` exists. */
  function AssociationStep(s: Schema): seq<Migration> {
    if !s.associationId then
      if s.auditableParentId then [RenameParentToAssociation]
      else When(!s.associatedId, AddAssociationToAudits)
    else []
  }

  /** The checks of `migrations_to_be_applied` in turn, each emitting its
      migration when the table needs it. */
  function Plan(s: Schema): seq<Migration> {
    When(!s.comment, AddCommentToAudits)
    + When(s.changes, RenameChangesToAuditedChanges)
    + When(!s.remoteAddress, AddRemoteAddressToAudits)
    + When(!s.requestUuid, AddRequestUuidToAudits)
    + AssociationStep(s)
    + When(s.associationId, RenameAssociationToAssociated)
    + When(s.associatedIndex, RevertPolymorphicIndexesOrder)
  }

  /** When the table needs each migration, stated migration by migration. */
  predicate Needed(s: Schema, m: Migration) {
    match m
    case AddCommentToAudits => !s.comment
    case RenameChangesToAuditedChanges => s.changes
    case AddRemoteAddressToAudits => !s.remoteAddress
    case AddRequestUuidToAudits => !s.requestUuid
    case RenameParentToAssociation => !s.associationId && s.auditableParentId
    case AddAssociationToAudits => !s.associationId && !s.auditableParentId && !s.associatedId
    case RenameAssociationToAssociated => s.associationId
    case RevertPolymorphicIndexesOrder => s.associatedIndex
  }

  /** The plan holds exactly the migrations the table needs. */
  lemma PlanMembers(s: Schema, m: Migration)
    ensures m in Plan(s) <==> Needed(s, m)
  {
    var p0 := When(!s.comment, AddCommentToAudits);
    var p1 := When(s.changes, RenameChangesToAuditedChanges);
    var p2 := When(!s.remoteAddress, AddRemoteAddressToAudits);
    var p3 := When(!s.requestUuid, AddRequestUuidToAudits);
    var p4 := AssociationStep(s);
    var p5 := When(s.associationId, RenameAssociationToAssociated);
    var p6 := When(s.associatedIndex, RevertPolymorphicIndexesOrder);
    assert m in Plan(s) <==> m in p0 || m in p1 || m in p2 || m in p3 || m in p4 || m in p5 || m in p6;
  }

  /** `migrations_to_be_applied` on the table's columns and indexes. */
  function MigrationsToBeApplied(columns: seq<string>, indexes: seq<seq<string>>): (r: seq<Migration>)
    ensures AddCommentToAudits in r <==> "comment" !in columns
    ensures RenameChangesToAuditedChanges in r <==> "changes" in columns
    ensures AddRemoteAddressToAudits in r <==> "remote_address" !in columns
    ensures AddRequestUuidToAudits in r <==> "request_uuid" !in columns
    ensures RenameParentToAssociation in r <==>
      "association_id" !in columns && "auditable_parent_id" in columns
    ensures AddAssociationToAudits in r <==>
      "association_id" !in columns && "auditable_parent_id" !in columns && "associated_id" !in columns
    ensures RenameAssociationToAssociated in r <==> "association_id" in columns
    ensures RevertPolymorphicIndexesOrder in r <==> HasAssociatedIndex(indexes)
    ensures forall i, j :: 0 <= i < j < |r| ==> Rank(r[i]) < Rank(r[j])
  {
    var s := Inspect(columns, indexes);
    PlanOrdered(s);
    PlanMembers(s, AddCommentToAudits);
    PlanMembers(s, RenameChangesToAuditedChanges);
    PlanMembers(s, AddRemoteAddressToAudits);
    PlanMembers(s, AddRequestUuidToAudits);
    PlanMembers(s, RenameParentToAssociation);
    PlanMembers(s, AddAssociationToAudits);
    PlanMembers(s, RenameAssociationToAssociated);
    PlanMembers(s, RevertPolymorphicIndexesOrder);
    Plan(s)
  }

  /** The plan follows the generator's fixed order: ranks strictly increase
      along it. */
  lemma PlanOrdered(s: Schema)
    ensures var r := Plan(s);
      forall i, j :: 0 <= i < j < |r| ==> Rank(r[i]) < Rank(r[j])
  {
    var p0 := When(!s.comment, AddCommentToAudits);
    var p1 := When(s.changes, RenameChangesToAuditedChanges);
    var p2 := When(!s.remoteAddress, AddRemoteAddressToAudits);
    var p3 := When(!s.requestUuid, AddRequestUuidToAudits);
    var p4 := AssociationStep(s);
    var p5 := When(s.associationId, RenameAssociationToAssociated);
    var p6 := When(s.associatedIndex, RevertPolymorphicIndexesOrder);
    WhenRanked(!s.comment, AddCommentToAudits);
    WhenRanked(s.changes, RenameChangesToAuditedChanges);
    WhenRanked(!s.remoteAddress, AddRemoteAddressToAudits);
    WhenRanked(!s.requestUuid, AddRequestUuidToAudits);
    WhenRanked(s.associationId, RenameAssociationToAssociated);
    WhenRanked(s.associatedIndex, RevertPolymorphicIndexesOrder);
    assert RankedWithin(p4, 4, 6);
    ConcatRanked(p0, p1, 0, 1, 2);
    ConcatRanked(p0 + p1, p2, 0, 2, 3);
    ConcatRanked(p0 + p1 + p2, p3, 0, 3, 4);
    ConcatRanked(p0 + p1 + p2 + p3, p4, 0, 4, 6);
    ConcatRanked(p0 + p1 + p2 + p3 + p4, p5, 0, 6, 7);
    ConcatRanked(p0 + p1 + p2 + p3 + p4 + p5, p6, 0, 7, 8);
  }

  /** Each migration is generated at most once, and of the three ways to
      bring the association columns up to date at most one is chosen. */
  lemma AtMostOneAssociationStep(columns: seq<string>, indexes: seq<seq<string>>)
    ensures var r := MigrationsToBeApplied(columns, indexes);
      && (forall i, j :: 0 <= i < j < |r| ==> r[i] != r[j])
      && (forall i, j :: 0 <= i < j < |r| ==> Names(r)[i] != Names(r)[j])
      && !(RenameParentToAssociation in r && AddAssociationToAudits in r)
      && !(RenameAssociationToAssociated in r && (RenameParentToAssociation in r || AddAssociationToAudits in r))
  {
    var r := MigrationsToBeApplied(columns, indexes);
    forall i, j | 0 <= i < j < |r| ensures r[i] != r[j] && Names(r)[i] != Names(r)[j] {
      assert Rank(r[i]) < Rank(r[j]);
      NameInjective(r[i], r[j]);
    }
  }

  /** The template names `migrations_to_be_applied` yields: the name of a
      migration appears iff the migration is due, and no name twice. */
  function MigrationNames(columns: seq<string>, indexes: seq<seq<string>>): (r: seq<string>)
    ensures |r| == |MigrationsToBeApplied(columns, indexes)|
    ensures forall m :: Name(m) in r <==> m in MigrationsToBeApplied(columns, indexes)
    ensures forall i, j :: 0 <= i < j < |r| ==> r[i] != r[j]
  {
    var plan := MigrationsToBeApplied(columns, indexes);
    AtMostOneAssociationStep(columns, indexes);
    forall m ensures Name(m) in Names(plan) <==> m in plan {
      if Name(m) in Names(plan) {
        var i :| 0 <= i < |plan| && Names(plan)[i] == Name(m);
        NameInjective(plan[i], m);
      }
    }
    Names(plan)
  }

  /** A table that already has every current column, no legacy column and
      no old-order index needs no migration. */
  lemma UpToDateNeedsNothing(columns: seq<string>, indexes: seq<seq<string>>)
    requires "comment" in columns && "remote_address" in columns && "request_uuid" in columns
    requires "associated_id" in columns
    requires "changes" !in columns && "association_id" !in columns && "auditable_parent_id" !in columns
    requires !HasAssociatedIndex(indexes)
    ensures MigrationsToBeApplied(columns, indexes) == []
  {
  }

  /** A table from before any of the upgrades (with `changes` and
      `auditable_parent_id`, none of the later columns, and the old index)
      gets the whole chain in order. */
  lemma OldestTableExample()
    ensures MigrationsToBeApplied(["id", "changes", "auditable_parent_id"], [["associated_id", "associated_type"]])
      == [AddCommentToAudits, RenameChangesToAuditedChanges, AddRemoteAddressToAudits,
          AddRequestUuidToAudits, RenameParentToAssociation, RevertPolymorphicIndexesOrder]
  {
    var columns := ["id", "changes", "auditable_parent_id"];
    var indexes := [["associated_id", "associated_type"]];
    assert indexes[0] == ["associated_id", "associated_type"];
    var s := Inspect(columns, indexes);
    assert s == Schema(false, true, false, false, false, true, false, true);
    assert Plan(s) == [AddCommentToAudits, RenameChangesToAuditedChanges, AddRemoteAddressToAudits,
                       AddRequestUuidToAudits, RenameParentToAssociation, RevertPolymorphicIndexesOrder];
  }
}
