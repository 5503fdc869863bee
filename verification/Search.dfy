/** The search as a whole: what a claimed nonce means for the transaction that the host then builds. */
module Search {
  import opened Words
  import opened Curve
  import opened Group
  import opened Order
  import opened Wire
  import opened Comb
  import opened CombHost
  import opened HostPrecompute
  import opened Address
  import opened Batch
  import opened Run

  /** The address that the sender of a signature (r, s) on hash z deploys to. A recovered key at infinity
      is no sender: for it this is the address of the coordinates (0, 0), and no candidate of a clean run
      has such a key. */
  ghost function SignedAddress(R: Point, G: Point, r: int, s: nat, z: nat): Addr {
    PointAddress(Held(Recovered(R, G, r, s, z)))
  }

  lemma CandidateIsSigned(Q: Point, D: Point, R: Point, G: Point, r: int, sBase: int, z: nat, k: nat)
    requires LinearRecovery(Q, D, R, G, r, sBase, z) && sBase + k >= 0
    ensures CandidateAddress(Q, D, k) == SignedAddress(R, G, r, sBase + k, z)
  {
    hide Recovered, Add, Times, PointAddress;
    CandidateAddressIs(Q, D, k);
    assert Candidate(Q, D, k) == Add(Q, Times(k, D));
  }

  /** A clean run on the precomputed table and free slots claims exactly when, for some k of the run,
      the signature with s = sBase + k deploys to an address with the pattern; the claimed nonce is
      such a k and the claimed address is the one that this signature deploys to. */
  lemma ClaimIsSignature(r: int, sBase: int, Q: Point, D: Point, R: Point, G: Point, z: nat, o: Outcome, base: nat,
                         n: nat, prefix: seq<bv8>, suffix: seq<bv8>)
    requires LinearRecovery(Q, D, R, G, r, sBase, z) && sBase + base >= 0
    requires 1 <= n && |prefix| <= 20 && |suffix| <= 20 && o.found == 0
    ensures var w := Offered(o, CandidateAddresses(Q, D, base, n), base, 1, prefix, suffix);
      && (w.found == 1 <==> exists k: nat :: SignatureHit(r, sBase, R, G, z, base, n, k, prefix, suffix))
      && (w.found == 1 ==>
            exists k: nat ::
              SignatureHit(r, sBase, R, G, z, base, n, k, prefix, suffix) && ReportsSignature(w, r, sBase, R, G, z, k))
  {
    hide Recovered, Add, Times, Offered, CandidateAddress, SignedAddress, MatchesPattern, LinearRecovery,
         CandidateAddresses;
    CleanRunReports(o, Q, D, base, n, prefix, suffix);
    var w := Offered(o, CandidateAddresses(Q, D, base, n), base, 1, prefix, suffix);
    forall k: nat | base <= k
      ensures CandidateAddress(Q, D, k) == SignedAddress(R, G, r, sBase + k, z)
    {
      CandidateIsSigned(Q, D, R, G, r, sBase, z, k);
    }
    if w.found == 1 {
      var k: nat :| RunHit(Q, D, base, n, k, prefix, suffix) && ReportsCandidate(w, Q, D, k);
      assert SignatureHit(r, sBase, R, G, z, base, n, k, prefix, suffix) && ReportsSignature(w, r, sBase, R, G, z, k);
    }
    if k: nat :| SignatureHit(r, sBase, R, G, z, base, n, k, prefix, suffix) {
      assert RunHit(Q, D, base, n, k, prefix, suffix);
    }
  }

  /** The slots hold k, in 64 bits, and the address that the signature with s = sBase + k deploys to. */
  ghost predicate ReportsSignature(w: Outcome, r: int, sBase: int, R: Point, G: Point, z: nat, k: nat)
    requires sBase + k >= 0
  {
    w.nonce == k % B64 && w.address == SignedAddress(R, G, r, sBase + k, z)
  }

  /** Candidate k is in the run and the signature with s = sBase + k deploys to a matching address. */
  ghost predicate SignatureHit(r: int, sBase: int, R: Point, G: Point, z: nat, base: nat, n: nat, k: nat,
                               prefix: seq<bv8>, suffix: seq<bv8>)
    requires |prefix| <= 20 && |suffix| <= 20 && sBase + base >= 0
  {
    base <= k < base + n && MatchesPattern(SignedAddress(R, G, r, sBase + k, z), prefix, suffix)
  }

  /** The three ways to a candidate's key agree: slot i of a clean run, the host's scalar multiple and,
      through PubForKViaTable, the host's sum over the table. */
  lemma SlotIsHostKey(t: seq<Byte>, D: Point, Q: Point, base: Word, n: nat, i: nat)
    requires Secp256k1() && OnCurve(D) && D.Affine? && OnCurve(Q) && CombTable(t, D) && i < n <= 256 && base + i < B64
    requires |t| >= WINDOW_BYTES && CleanRun(t, Q, D, base, n)
    ensures var S := Slot(t, Held(Candidate(Q, D, base)), n, i);
      PubForK(FromPoint(Q), FromPoint(D), base + i) == Xy(S.x, S.y)
  {
    hide Times, OnCurve, Add, Associative, KilledBy, CombTable, Step, Collides, Slope, PubForK;
    SlotIsCandidate(t, D, Q, base, n, i);
    PubForKIs(Q, D, base + i);
  }
}
