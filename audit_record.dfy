/** The audit record being created: its user reference, which is either a
    model or a plain name, and the `before_create` callbacks that fill in
    its version, user and request uuid. */
module AuditCreation {
  import opened RubyValues
  import opened Audits
  import opened Scopes
  import opened Ambient

  /** The three user columns: the polymorphic model reference
      (`user_type`, `user_id`) and the `username` string. */
  datatype UserColumns = UserColumns(userType: Option<string>, userId: Option<int>, username: Value)

  /** `user_as_model`: the referenced model when both reference columns are
      set, nil otherwise. */
  function UserAsModel(c: UserColumns): (v: Value)
    ensures v.Nil? || v.Model?
    ensures v.Model? <==> c.userType.Some? && c.userId.Some?
  {
    if c.userType.Some? && c.userId.Some? then Model(c.userType.value, c.userId.value) else Nil
  }

  /** The `user` getter: the model reference if there is one, else the
      username. */
  function UserOf(c: UserColumns): (v: Value)
    ensures c.userType.Some? && c.userId.Some? ==> v == Model(c.userType.value, c.userId.value)
    ensures !(c.userType.Some? && c.userId.Some?) ==> v == c.username
  {
    Or(UserAsModel(c), c.username)
  }

  /** The `user=` setter: clears all three columns, then sets the model
      reference for a model and the username for anything else. */
  function ColumnsFor(user: Value): (c: UserColumns)
    ensures user.Model? ==> c == UserColumns(Some(user.modelType), Some(user.id), Nil)
    ensures !user.Model? ==> c == UserColumns(None, None, user)
  {
    var cleared := UserColumns(None, None, Nil);
    if user.Model? then cleared.(userType := Some(user.modelType), userId := Some(user.id))
    else cleared.(username := user)
  }

  /** Reading the user back after `user=` gives the value assigned, and
      the model reference and the username are never both set. */
  lemma UserRoundTrip(user: Value)
    ensures UserOf(ColumnsFor(user)) == user
    ensures ColumnsFor(user).userId.Some? ==> ColumnsFor(user).username.Nil?
    ensures user.Nil? ==> ColumnsFor(user) == UserColumns(None, None, Nil)
  {
  }

  class AuditRecord {
    const auditableType: Option<string>
    const auditableId: Option<int>
    var user: UserColumns
    var version: Option<int>
    var requestUuid: Value
    var remoteAddress: Value

    constructor (auditableType: Option<string>, auditableId: Option<int>, user: UserColumns,
                 version: Option<int>, requestUuid: Value, remoteAddress: Value)
      ensures this.auditableType == auditableType && this.auditableId == auditableId
      ensures this.user == user && this.version == version
      ensures this.requestUuid == requestUuid && this.remoteAddress == remoteAddress
    {
      this.auditableType := auditableType;
      this.auditableId := auditableId;
      this.user := user;
      this.version := version;
      this.requestUuid := requestUuid;
      this.remoteAddress := remoteAddress;
    }

    /** `user`. */
    function User(): Value
      reads this
    {
      UserOf(user)
    }

    /** `user = u`. */
    method SetUser(u: Value)
      modifies this
      ensures user == ColumnsFor(u)
      ensures User() == u
      ensures version == old(version) && requestUuid == old(requestUuid) && remoteAddress == old(remoteAddress)
    {
      user := UserColumns(None, None, Nil);
      if u.Model? {
        user := user.(userType := Some(u.modelType), userId := Some(u.id));
      } else {
        user := user.(username := u);
      }
      UserRoundTrip(u);
    }

    /** `set_version_number` of the ActiveRecord adapter: one more than the
        largest version among the audits of the same record, or 1. */
    method SetVersionNumber(trail: seq<Audit>) returns (result: Value)
      modifies this
      ensures version == Some(NextVersion(trail, auditableId, auditableType))
      ensures result == Int(version.value)
      ensures user == old(user) && requestUuid == old(requestUuid) && remoteAddress == old(remoteAddress)
    {
      var max := MaximumVersion(AuditableFinder(trail, auditableId, auditableType));
      var base := if max.Some? then max.value else 0;
      assert NextVersion(trail, auditableId, auditableType) == base + 1;
      version := Some(base + 1);
      result := Int(base + 1);
    }

    /** `set_audit_user`: keeps a user already set, else takes the store's
        audited user (from `as_user`), else its current user (from the
        request); always returns nil. */
    method SetAuditUser(store: Store) returns (result: Value)
      modifies this
      ensures result.Nil?
      ensures User() == Or(Or(old(User()), store.Get(AUDITED_USER)), store.Get(CURRENT_USER))
      ensures Truthy(old(User())) ==> user == old(user)
      ensures !Truthy(old(User())) ==> user == ColumnsFor(User())
      ensures version == old(version) && requestUuid == old(requestUuid) && remoteAddress == old(remoteAddress)
    {
      if !Truthy(User()) {
        SetUser(store.Get(AUDITED_USER));
      }
      if !Truthy(User()) {
        SetUser(store.Get(CURRENT_USER));
      }
      result := Nil;
    }

    /** `set_request_uuid`: keeps a uuid already set, else takes the
        store's request uuid, else the freshly generated `freshUuid`. */
    method SetRequestUuid(store: Store, freshUuid: string) returns (result: Value)
      modifies this
      ensures requestUuid == Or(Or(old(requestUuid), store.Get(CURRENT_REQUEST_UUID)), Str(freshUuid))
      ensures Truthy(requestUuid) && result == requestUuid
      ensures user == old(user) && version == old(version) && remoteAddress == old(remoteAddress)
    {
      requestUuid := Or(requestUuid, store.Get(CURRENT_REQUEST_UUID));
      requestUuid := Or(requestUuid, Str(freshUuid));
      result := requestUuid;
    }

    /** `set_remote_address`: keeps an address already set, else takes the
        store's. It is defined but not registered as a callback. */
    method SetRemoteAddress(store: Store) returns (result: Value)
      modifies this
      ensures remoteAddress == Or(old(remoteAddress), store.Get(CURRENT_REMOTE_ADDRESS))
      ensures result == remoteAddress
      ensures user == old(user) && version == old(version) && requestUuid == old(requestUuid)
    {
      remoteAddress := Or(remoteAddress, store.Get(CURRENT_REMOTE_ADDRESS));
      result := remoteAddress;
    }

    /** The `before_create` chain: set_version_number, set_audit_user,
        set_request_uuid, in that order. A callback returning false would
        halt the chain; none of these does, so the record is always saved. */
    method BeforeCreate(trail: seq<Audit>, store: Store, freshUuid: string) returns (proceeds: bool)
      modifies this
      ensures proceeds
      ensures version == Some(NextVersion(trail, auditableId, auditableType))
      ensures User() == Or(Or(old(User()), store.Get(AUDITED_USER)), store.Get(CURRENT_USER))
      ensures Truthy(old(User())) ==> user == old(user)
      ensures !Truthy(old(User())) ==> user == ColumnsFor(User())
      ensures requestUuid == Or(Or(old(requestUuid), store.Get(CURRENT_REQUEST_UUID)), Str(freshUuid))
      ensures Truthy(requestUuid)
      ensures remoteAddress == old(remoteAddress)
    {
      var r1 := SetVersionNumber(trail);
      proceeds := r1 != Bool(false);
      if proceeds {
        var r2 := SetAuditUser(store);
        proceeds := r2 != Bool(false);
        if proceeds {
          var r3 := SetRequestUuid(store, freshUuid);
          proceeds := r3 != Bool(false);
        }
      }
    }
  }
}
