/** The request-local store the audit engine reads its context from, and
    `as_user`, which sets the acting user for the duration of a block. */
module Ambient {
  import opened RubyValues

  /** Keys of the store. The request filter fills in the current user,
      remote address and request uuid; `as_user` fills in the audited user. */
  const AUDITED_USER := "audited_user"
  const CURRENT_USER := "current_user"
  const CURRENT_REQUEST_UUID := "current_request_uuid"
  const CURRENT_REMOTE_ADDRESS := "current_remote_address"

  /** `Audited.store`: a hash from keys to values; a missing key reads nil. */
  class Store {
    var slots: map<string, Value>

    constructor (slots: map<string, Value>)
      ensures this.slots == slots
    {
      this.slots := slots;
    }

    function Get(key: string): Value
      reads this
    {
      if key in slots then slots[key] else Nil
    }
  }

  /** How a block ends: with a value, or by raising an error. */
  datatype Outcome = Returned(value: Value) | Raised(error: string)

  /** What a block does, given the store it runs with: how it ends and the
      store it leaves behind. */
  datatype BlockRun = BlockRun(outcome: Outcome, slotsAfter: map<string, Value>)

  /** The effect of `as_user(user) { block }` on a store: the block runs
      with the audited user set to `user`, then the audited user is set back
      to nil whether the block returned or raised, and the block's outcome is
      passed on unchanged. */
  function AsUserRun(slots: map<string, Value>, user: Value, block: map<string, Value> -> BlockRun): (r: BlockRun)
    ensures r.outcome == block(slots[AUDITED_USER := user]).outcome
    ensures AUDITED_USER in r.slotsAfter && r.slotsAfter[AUDITED_USER] == Nil
    ensures forall k :: k in r.slotsAfter && k != AUDITED_USER <==>
      k in block(slots[AUDITED_USER := user]).slotsAfter && k != AUDITED_USER
    ensures forall k :: k in r.slotsAfter && k != AUDITED_USER ==>
      r.slotsAfter[k] == block(slots[AUDITED_USER := user]).slotsAfter[k]
  {
    var run := block(slots[AUDITED_USER := user]);
    BlockRun(run.outcome, run.slotsAfter[AUDITED_USER := Nil])
  }

  /** `as_user(user) { block }` on the store. */
  method AsUser(store: Store, user: Value, block: map<string, Value> -> BlockRun) returns (outcome: Outcome)
    modifies store
    ensures outcome == AsUserRun(old(store.slots), user, block).outcome
    ensures store.slots == AsUserRun(old(store.slots), user, block).slotsAfter
    ensures store.Get(AUDITED_USER) == Nil
  {
    store.slots := store.slots[AUDITED_USER := user];
    var run := block(store.slots);
    store.slots := run.slotsAfter;
    store.slots := store.slots[AUDITED_USER := Nil];
    outcome := run.outcome;
  }

  /** A block that returns 42 makes `as_user` return 42; one that raises
      makes it raise the same error; either way the audited user is nil
      afterwards. */
  lemma AsUserPassesOutcomeThrough(slots: map<string, Value>, user: Value, error: string)
    ensures AsUserRun(slots, user, s => BlockRun(Returned(Int(42)), s)).outcome == Returned(Int(42))
    ensures AsUserRun(slots, user, s => BlockRun(Raised(error), s)).outcome == Raised(error)
    ensures AsUserRun(slots, user, s => BlockRun(Raised(error), s)).slotsAfter[AUDITED_USER] == Nil
  {
  }

  /** `as_user` does not restore an enclosing `as_user`'s user: once a
      nested call returns, the audited user is nil for the rest of the
      outer block. */
  lemma NestedAsUserClearsOuter(slots: map<string, Value>, outer: Value, inner: Value,
                                block: map<string, Value> -> BlockRun)
    ensures AsUserRun(slots[AUDITED_USER := outer], inner, block).slotsAfter[AUDITED_USER] == Nil
  {
  }
}
