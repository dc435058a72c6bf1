/** `make_order_id`: a 48-bit counter that rolls over into a 16-bit epoch. */
module OrderIds {
  import opened Division

  const EPOCHS := 0x1_0000
  const SHIFT := 0x1_0000_0000_0000
  const PER_EPOCH := SHIFT - 1

  /** The id of the k-th call, counting from 0: one counter value of each epoch is never handed out. */
  function NthId(k: nat): int {
    k / PER_EPOCH % EPOCHS * SHIFT + k % PER_EPOCH
  }

  class Generator {
    var nextId: int
    var epoch: int
    ghost var issued: nat

    /** The counter rolls over on the call after its last value, not on the call that hands that value out. */
    ghost predicate Valid()
      reads this
    {
      && 0 <= epoch < EPOCHS
      && 0 <= nextId <= PER_EPOCH
      && if issued == 0 then epoch == nextId == 0
         else epoch == (issued - 1) / PER_EPOCH % EPOCHS && nextId == (issued - 1) % PER_EPOCH + 1
    }

    constructor ()
      ensures Valid() && issued == 0
    {
      nextId, epoch, issued := 0, 0, 0;
    }

    method MakeOrderId() returns (id: int)
      requires Valid()
      modifies this
      ensures Valid() && issued == old(issued) + 1
      ensures id == NthId(old(issued))
    {
      if issued > 0 {
        NextDivision(issued - 1, PER_EPOCH);
        NextDivision((issued - 1) / PER_EPOCH, EPOCHS);
      }
      if nextId == PER_EPOCH {
        epoch := (epoch + 1) % EPOCHS;
        nextId := 0;
      }
      id := epoch * SHIFT + nextId;
      nextId := nextId + 1;
      issued := issued + 1;
    }
  }

  lemma NextDivision(k: nat, d: nat)
    requires d > 0
    ensures (k + 1) / d == (if k % d + 1 == d then k / d + 1 else k / d)
    ensures (k + 1) % d == (if k % d + 1 == d then 0 else k % d + 1)
  {
    var q := k / d;
    assert k == q * d + k % d;
    if k % d + 1 == d {
      assert k + 1 == (q + 1) * d;
      ModIsUnique(k + 1, q + 1, 0, d);
    } else {
      ModIsUnique(k + 1, q, k % d + 1, d);
    }
  }

  /** Two calls return the same id exactly when they are a whole number of full cycles apart. */
  lemma SameIdIff(j: nat, k: nat)
    ensures NthId(j) == NthId(k) <==> j % (PER_EPOCH * EPOCHS) == k % (PER_EPOCH * EPOCHS)
  {
    Digits(j);
    Digits(k);
  }

  lemma Digits(k: nat)
    ensures k % (PER_EPOCH * EPOCHS) == k / PER_EPOCH % EPOCHS * PER_EPOCH + k % PER_EPOCH
    ensures 0 <= k / PER_EPOCH % EPOCHS < EPOCHS && 0 <= k % PER_EPOCH < PER_EPOCH
  {
    var q := k / PER_EPOCH;
    assert k == q * PER_EPOCH + k % PER_EPOCH;
    assert q == q / EPOCHS * EPOCHS + q % EPOCHS;
    ModIsUnique(k, q / EPOCHS, q % EPOCHS * PER_EPOCH + k % PER_EPOCH, PER_EPOCH * EPOCHS);
  }

  /** Ids grow from call to call, and fit a signed 64-bit number, exactly for the first half of a cycle. */
  lemma FirstHalf(j: nat, k: nat)
    requires k < PER_EPOCH * EPOCHS
    ensures j < k ==> NthId(j) < NthId(k)
    ensures NthId(k) < 0x8000_0000_0000_0000 <==> k < PER_EPOCH * (EPOCHS / 2)
  {
    Digits(k);
    if j < k {
      Digits(j);
    }
  }
}
