/**
 * The commands as they are written (plugins/sub-rosa/index.ts), over a stored map
 * that `compareAndSet` changes. Each is proved to be `Alone`.
 */
module SubRosaStorage {
  import opened Common
  import opened SubRosa
  import opened SubRosaRuns

  class Storage {
    const hasher: Hasher
    var records: Store

    constructor (hasher: Hasher)
      ensures this.hasher == hasher && records == map[]
    {
      this.hasher := hasher;
      records := map[];
    }

    method CompareAndSet(id: Id, expected: Option<Record>, next: Record) returns (written: bool)
      modifies this`records
      ensures written == Matches(old(records), id, expected)
      ensures records == if written then old(records)[id := next] else old(records)
    {
      match expected {
        case None => written := id !in records;
        case Some(record) => written := id in records && records[id] == record;
      }
      if written {
        records := records[id := next];
      }
    }

    /** `commit`. */
    method Commit(id: Id, current: Record, next: Record) returns (answer: Answer)
      modifies this`records
      ensures answer == if Matches(old(records), id, Some(current)) then Answered(next) else Failed(Changed)
      ensures records == if answer.Answered? then old(records)[id := next] else old(records)
    {
      var written := CompareAndSet(id, Some(current), next);
      answer := if written then Answered(next) else Failed(Changed);
    }

    method CreateRfq(c: Command, now: int) returns (answer: Answer)
      requires c.Create?
      modifies this`records
      ensures (records, answer) == Alone(hasher, old(records), c, Readings(now, None))
    {
      hide NewRecord;
      var made := NewRecord(hasher, c, now);
      if made.Err? {
        return Failed(made.error);
      }
      NewRecordHasId(hasher, c, now);
      var created := CompareAndSet(c.id.value, None, made.value);
      answer := if created then Answered(made.value) else Failed(AlreadyExists);
    }

    /** `requireRfq`. */
    method RequireRfq(c: Command) returns (found: Result<Record, Error>)
      requires !c.Create?
      ensures found == if c.id.None? then Err(Malformed)
                       else if c.id.value in records then Ok(records[c.id.value]) else Err(NotFound)
    {
      if c.id.None? {
        return Err(Malformed);
      }
      if c.id.value !in records {
        return Err(NotFound);
      }
      found := Ok(records[c.id.value]);
    }

    method AttachSubRosaRound(c: Command, now: int) returns (answer: Answer)
      requires c.AttachRound?
      modifies this`records
      ensures (records, answer) == Alone(hasher, old(records), c, Readings(now, None))
    {
      hide WithRound;
      var current := RequireRfq(c);
      if current.Err? {
        return Failed(current.error);
      }
      var next := WithRound(c, current.value, now);
      if next.Err? {
        return Failed(next.error);
      }
      answer := Commit(c.id.value, current.value, next.value);
    }

    method StoreResult(c: Command, now: int) returns (answer: Answer)
      requires c.RecordResult?
      modifies this`records
      ensures (records, answer) == Alone(hasher, old(records), c, Readings(now, None))
    {
      hide WithSelection;
      var current := RequireRfq(c);
      if current.Err? {
        return Failed(current.error);
      }
      var next := WithSelection(c, current.value, now);
      if next.Err? {
        return Failed(next.error);
      }
      answer := Commit(c.id.value, current.value, next.value);
    }

    /** A link that was made is answered again without a write, and without asking for the intent. */
    method AttachPaymentIntent(c: Command, r: Readings) returns (answer: Answer)
      requires c.LinkPayment?
      modifies this`records
      ensures (records, answer) == Alone(hasher, old(records), c, r)
    {
      hide WithPayment;
      var current := RequireRfq(c);
      if current.Err? {
        return Failed(current.error);
      }
      var early := BeforeIntent(c, current.value);
      if early.Some? {
        match early.value {
          case Err(error) => return Failed(error);
          case Ok(record) =>
            assert records[c.id.value := record] == records;
            return Answered(record);
        }
      }
      var next := WithPayment(c, current.value, r);
      if next.Err? {
        return Failed(next.error);
      }
      answer := Commit(c.id.value, current.value, next.value);
    }
  }
}
