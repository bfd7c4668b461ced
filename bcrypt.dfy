/**
 * The part of golang.org/x/crypto/bcrypt the core uses:
 * `GenerateFromPassword` and `CompareHashAndPassword`.
 *
 * The hash is modelled as a one-to-one digest of the password tagged with the
 * cost; salting, the cost's effect on running time and one-wayness are not
 * modelled. What the core relies on is the verification property proved in
 * `CompareExactly`: a hash made from `p` accepts `q` exactly when `q == p`.
 */
module Bcrypt {
  import opened Results
  import opened Errors

  /** bcrypt.MinCost, bcrypt.MaxCost and bcrypt.DefaultCost */
  const MinCost: int := 4
  const MaxCost: int := 31
  const DefaultCost: int := 10

  datatype PassHash = PassHash(cost: int, digest: seq<int>)

  /** Stand-in for the key derivation: one code per character. */
  function Digest(password: string): seq<int>
  {
    seq(|password|, i requires 0 <= i < |password| => password[i] as int)
  }

  /** `bcrypt.GenerateFromPassword(password, cost)`. A cost below MinCost is
      silently replaced by DefaultCost; a cost above MaxCost is refused with an
      InvalidCostError. The library's other failures (an over-long password,
      the random source) are the `fault`, which takes precedence. */
  function GenerateFromPassword(password: string, cost: int, fault: Option<int>): (r: Result<PassHash, Error>)
    ensures r.Success? <==> fault.None? && cost <= MaxCost
    ensures r.Success? ==> MinCost <= r.value.cost <= MaxCost
    ensures r.Success? && cost >= MinCost ==> r.value.cost == cost
    ensures r.Success? && cost < MinCost ==> r.value.cost == DefaultCost
    ensures fault.Some? ==> r == Failure(Foreign(fault.value))
    ensures fault.None? && cost > MaxCost ==> r == Failure(InvalidCost(cost))
  {
    match fault
    case Some(code) => Failure(Foreign(code))
    case None =>
      var used := if cost < MinCost then DefaultCost else cost;
      if used > MaxCost then Failure(InvalidCost(cost))
      else Success(PassHash(used, Digest(password)))
  }

  /** `bcrypt.CompareHashAndPassword(hash, password) == nil`: the password is
      accepted exactly when hashing it at the hash's own cost gives this hash.
      A hash whose cost is outside MinCost..MaxCost is refused. */
  predicate CompareHashAndPassword(hash: PassHash, password: string)
    ensures CompareHashAndPassword(hash, password) <==> GenerateFromPassword(password, hash.cost, None) == Success(hash)
  {
    MinCost <= hash.cost <= MaxCost && hash.digest == Digest(password)
  }

  lemma DigestInjective(p: string, q: string)
    requires Digest(p) == Digest(q)
    ensures p == q
  {
    assert |p| == |Digest(p)| == |Digest(q)| == |q|;
    forall i | 0 <= i < |p|
      ensures p[i] == q[i]
    {
      assert Digest(p)[i] == Digest(q)[i];
    }
  }

  /** Hashing succeeds at every cost up to MaxCost, and a hash generated from
      `p` verifies the password `q` if and only if `q == p`. */
  lemma CompareExactly(p: string, cost: int, q: string)
    ensures var h := GenerateFromPassword(p, cost, None);
            && (h.Success? <==> cost <= MaxCost)
            && (h.Success? ==> (CompareHashAndPassword(h.value, q) <==> q == p))
  {
    var h := GenerateFromPassword(p, cost, None);
    if h.Success? && CompareHashAndPassword(h.value, q) {
      DigestInjective(p, q);
    }
  }
}
