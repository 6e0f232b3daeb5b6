/**
 * Cancellation tokens (`GCancellable`). A token is a one-shot signal: it is
 * created unfired, firing it is idempotent, and a fired token never becomes
 * unfired again. The model numbers the tokens an owner creates in order and
 * keeps the set of those that have fired.
 */
module Cancellation {

  type Token = nat

  datatype TokenPool = TokenPool(issued: nat, fired: set<Token>) {

    /** Only tokens that were created can have fired. */
    ghost predicate Valid() {
      forall t :: t in fired ==> t < issued
    }

    /** `t` was created and has not fired. */
    predicate IsLive(t: Token) {
      t < issued && t !in fired
    }

    /** `g_cancellable_new`: the pool after creating the token numbered `issued`. */
    function Create(): (p: TokenPool)
      requires Valid()
      ensures p.Valid()
      ensures p.IsLive(issued)
      ensures !IsLive(issued) && p.fired == fired
      ensures forall t :: IsLive(t) ==> p.IsLive(t)
    {
      TokenPool(issued + 1, fired)
    }

    /** `g_cancellable_cancel`: fires `t`; every token that had fired stays fired. */
    function Cancel(t: Token): (p: TokenPool)
      ensures t in p.fired && fired <= p.fired && p.issued == issued
      ensures forall u :: u != t ==> (u in p.fired <==> u in fired)
      ensures Valid() && t < issued ==> p.Valid()
    {
      TokenPool(issued, fired + {t})
    }
  }

  /** Cancelling twice is cancelling once. */
  lemma CancelIdempotent(p: TokenPool, t: Token)
    ensures p.Cancel(t).Cancel(t) == p.Cancel(t)
  {
  }
}
