/**
 * One cycle of the sweeper (src/aliases/alias-challenge-sweeper.service.ts), over the
 * alias tables: what the loop deletes is a `Sweep` of the interleaved model.
 */
module AliasSweepCycle {
  import opened AliasTables
  import opened AliasProtocol
  import opened AliasSweeper

  function ChallengeExpiry(db: Db): map<string, int> {
    map n | n in db.challenges :: db.challenges[n].expiresAt
  }

  function RecoveryExpiry(db: Db): map<Hash, int> {
    map h | h in db.recoveries :: db.recoveries[h].expiresAt
  }

  /** Rows that expired before the cutoff may be swept, and no others. */
  lemma ExpiredMaySweep(s: System, nonces: set<string>, hashes: set<Hash>)
    ensures var cutoff := s.clock - SWEEP_GRACE_MS;
            Enabled(s, Sweep(nonces, hashes))
            <==> (forall n :: n in nonces && n in ChallengeExpiry(s.db) ==> ChallengeExpiry(s.db)[n] < cutoff)
                 && (forall h :: h in hashes && h in RecoveryExpiry(s.db) ==> RecoveryExpiry(s.db)[h] < cutoff)
  {
  }

  lemma SweptExpiries(db: Db, nonces: set<string>, hashes: set<Hash>)
    ensures ChallengeExpiry(SweepDb(db, nonces, hashes)) == ChallengeExpiry(db) - nonces
    ensures RecoveryExpiry(SweepDb(db, nonces, hashes)) == RecoveryExpiry(db) - hashes
  {
  }

  /**
   * `run`: challenges first, then recoveries. Whatever races it, the rows it deletes
   * are those of a sweep the model allows in the state it began in. Left alone it is
   * that sweep, and leaves no row past the cutoff unless a table filled its cycle.
   */
  method RunCycle(challenges: Table<string>, recoveries: Table<Hash>, ghost s: System, now: int, racing: bool)
    returns (deleted: nat, ghost nonces: set<string>, ghost hashes: set<Hash>)
    requires challenges.Valid() && recoveries.Valid() && now == s.clock
    requires challenges as object != recoveries as object
    requires challenges.expiry == ChallengeExpiry(s.db) && recoveries.expiry == RecoveryExpiry(s.db)
    modifies challenges, recoveries
    ensures Enabled(s, Sweep(nonces, hashes))
    ensures deleted <= 100_000
    ensures !racing ==>
      var db := SweepDb(s.db, nonces, hashes);
      challenges.expiry == ChallengeExpiry(db) && recoveries.expiry == RecoveryExpiry(db)
      && deleted == |nonces| + |hashes|
    ensures !racing && |nonces| < 50_000 ==> forall n :: n in challenges.expiry ==> now - 86_400_000 <= challenges.expiry[n]
    ensures !racing && |hashes| < 50_000 ==> forall h :: h in recoveries.expiry ==> now - 86_400_000 <= recoveries.expiry[h]
  {
    hide ChallengeExpiry, RecoveryExpiry, Enabled, SweepDb;
    var cutoff := now - SWEEP_GRACE_MS;
    var first, second, examined, pages;
    first, examined, pages, nonces := challenges.Drain(racing, cutoff);
    second, examined, pages, hashes := recoveries.Drain(racing, cutoff);
    deleted := first + second;
    ExpiredMaySweep(s, nonces, hashes);
    SweptExpiries(s.db, nonces, hashes);
  }
}
