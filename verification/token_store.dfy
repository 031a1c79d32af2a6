/**
 * The two places the admin class keeps its bearer token: the persisted
 * WordPress option `'sferanet_token'` and the in-memory `$token` field.
 */
module TokenStore {
  import opened Wrappers

  /**
   * `option` is the persisted slot, `field` the in-memory one; `None` is a slot
   * that has never been written (PHP `null` / a missing option).
   */
  datatype TokenState = TokenState(option: Option<string>, field: Option<string>)

  /** `set_token`: writes `t` into both slots. */
  function SetToken(s: TokenState, t: string): (s': TokenState)
    ensures s'.option == Some(t)
    ensures s'.field == Some(t)
  {
    s.(option := Some(t), field := Some(t))
  }

  /** `get_token`: the in-memory token, whatever the persisted slot holds. */
  function GetToken(s: TokenState): Option<string>
  {
    s.field
  }

  /** Reading after writing yields what was written, whatever came before. */
  lemma GetAfterSet(s: TokenState, t: string)
    ensures GetToken(SetToken(s, t)) == Some(t)
    ensures SetToken(s, t) == TokenState(Some(t), Some(t))
  {
  }

  /** `get_token` never looks at the persisted slot. */
  lemma GetIgnoresOption(s: TokenState, o: Option<string>)
    ensures GetToken(s.(option := o)) == GetToken(s)
  {
  }

  /** Writing the same token twice is the same as writing it once; the last write wins. */
  lemma SetTokenLastWriteWins(s: TokenState, t1: string, t2: string)
    ensures SetToken(SetToken(s, t1), t2) == SetToken(s, t2)
    ensures SetToken(SetToken(s, t1), t1) == SetToken(s, t1)
  {
  }
}
