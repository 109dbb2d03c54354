/** The registry of live sessions (relay/session_store.py): session code to record, each with a
    time to live that reads and heartbeats enforce lazily. */
module SessionStore {
  import opened Common

  const CODE_LENGTH := 9
  const MAX_CREATE_ATTEMPTS := 100

  type ConnId = nat

  datatype Details = Details(os: string, hostname: string, version: string, capabilities: seq<string>)

  datatype Record = Record(code: string, connection: ConnId, details: Details, createdAt: real, expiresAt: real)

  type Records = map<string, Record>

  /** `isDigit` is Python's `str.isdigit` on one character, which accepts more than 0 to 9. */
  predicate IsCode(isDigit: char -> bool, s: string) {
    |s| == CODE_LENGTH && forall i :: 0 <= i < |s| ==> isDigit(s[i])
  }

  /** The first of the draws from number `k` on, among the attempts allowed, that is free. */
  function FirstFree(records: Records, draws: nat -> string, k: nat): Option<string>
    decreases MAX_CREATE_ATTEMPTS - k
  {
    if k >= MAX_CREATE_ATTEMPTS then None
    else if draws(k) !in records then Some(draws(k))
    else FirstFree(records, draws, k + 1)
  }

  /** The code a new session gets: the desired one when it is well-formed and free, else a draw. */
  function Chosen(isDigit: char -> bool, records: Records, desired: Option<string>,
                  draws: nat -> string): Option<string> {
    if desired.Some? && IsCode(isDigit, desired.value) && desired.value !in records then desired
    else FirstFree(records, draws, 0)
  }

  function Created(records: Records, code: string, connection: ConnId, details: Details, now: real,
                   ttl: real): Records {
    records[code := Record(code, connection, details, now, now + ttl)]
  }

  predicate IsLive(records: Records, code: string, now: real) {
    code in records && now < records[code].expiresAt
  }

  /** Reading a code drops its record when it has expired. */
  function Purged(records: Records, code: string, now: real): Records {
    if code in records && !IsLive(records, code, now) then records - {code} else records
  }

  function Touched(records: Records, code: string, now: real, ttl: real): Records {
    if IsLive(records, code, now) then records[code := records[code].(expiresAt := now + ttl)]
    else Purged(records, code, now)
  }

  function Without(records: Records, connection: ConnId): Records {
    map code | code in records && records[code].connection != connection :: records[code]
  }

  class InMemorySessionStore {
    const isDigit: char -> bool
    var records: Records

    constructor (isDigit: char -> bool)
      ensures this.isDigit == isDigit && records == map[]
    {
      this.isDigit := isDigit;
      records := map[];
    }

    /** Registers a connection and returns its code; None stands for the RuntimeError raised when
        every draw is taken. `draws(i)` is the i-th call of the code generator. */
    method Create(connection: ConnId, details: Details, ttl: real, desired: Option<string>,
                  draws: nat -> string, now: real)
      returns (code: Option<string>)
      modifies this
      ensures code == Chosen(isDigit, old(records), desired, draws)
      ensures records == if code.Some? then Created(old(records), code.value, connection, details, now, ttl)
                         else old(records)
      // No session is ever evicted or altered, and the new one has exactly what was declared.
      ensures forall c :: c in old(records) ==> c in records && records[c] == old(records)[c]
      ensures code.Some? ==> code.value !in old(records)
                             && records[code.value] == Record(code.value, connection, details, now, now + ttl)
    {
      code := None;
      if desired.Some? && IsCode(isDigit, desired.value) && desired.value !in records {
        code := desired;
      } else {
        var k := 0;
        while k < MAX_CREATE_ATTEMPTS && code.None?
          invariant 0 <= k <= MAX_CREATE_ATTEMPTS
          invariant code.None? ==> FirstFree(records, draws, k) == FirstFree(records, draws, 0)
          invariant code.Some? ==> code == FirstFree(records, draws, 0) && code.value !in records
        {
          var candidate := draws(k);
          if candidate !in records {
            code := Some(candidate);
          }
          k := k + 1;
        }
      }
      if code.Some? {
        records := records[code.value := Record(code.value, connection, details, now, now + ttl)];
      }
    }

    method Get(code: string, now: real) returns (record: Option<Record>)
      modifies this
      ensures record == if code in old(records) && now < old(records)[code].expiresAt then Some(old(records)[code])
                        else None
      ensures records == Purged(old(records), code, now)
    {
      if code !in records {
        return None;
      }
      if records[code].expiresAt <= now {
        records := records - {code};
        return None;
      }
      record := Some(records[code]);
    }

    /** Heartbeat: extends the record's life, whoever it now belongs to. */
    method Touch(code: string, ttl: real, now: real) returns (known: bool)
      modifies this
      ensures known <==> code in old(records) && now < old(records)[code].expiresAt
      ensures known ==> records == old(records)[code := old(records)[code].(expiresAt := now + ttl)]
      ensures !known ==> records == old(records) - {code}
      ensures records == Touched(old(records), code, now, ttl)
    {
      if code !in records {
        return false;
      }
      if records[code].expiresAt <= now {
        records := records - {code};
        return false;
      }
      records := records[code := records[code].(expiresAt := now + ttl)];
      known := true;
    }

    /** Drops every record of a connection. */
    method RemoveByConnection(connection: ConnId)
      modifies this
      ensures records == Without(old(records), connection)
    {
      var todo := records.Keys;
      while todo != {}
        invariant todo <= old(records).Keys
        invariant records == map code | code in old(records)
                                        && (code in todo || old(records)[code].connection != connection)
                                      :: old(records)[code]
        decreases |todo|
      {
        var code :| code in todo;
        todo := todo - {code};
        if records[code].connection == connection {
          records := records - {code};
        }
      }
    }

    /** Kill-switch: drops the record, expired or not, and returns it. */
    method Terminate(code: string) returns (record: Option<Record>)
      modifies this
      ensures record == if code in old(records) then Some(old(records)[code]) else None
      ensures records == old(records) - {code}
    {
      record := None;
      if code in records {
        record := Some(records[code]);
        records := records - {code};
      }
    }
  }

  // ----- Lemmas -----

  ghost predicate IsFirstFree(records: Records, draws: nat -> string, k: nat, i: nat) {
    k <= i && draws(i) !in records && forall j: nat :: k <= j < i ==> draws(j) in records
  }

  /** What a drawn code is: free, one of the attempts, and the earliest such. */
  lemma {:induction false} FirstFreeIsFirst(records: Records, draws: nat -> string, k: nat)
    requires k <= 100
    ensures var c := FirstFree(records, draws, k);
            && (c.None? <==> forall i: nat :: k <= i < 100 ==> draws(i) in records)
            && (c.Some? ==> c.value !in records)
            && (c.Some? ==> exists i: nat :: k <= i < 100 && IsFirstFree(records, draws, k, i)
                                             && draws(i) == c.value)
    decreases 100 - k
  {
    if k < 100 {
      FirstFreeIsFirst(records, draws, k + 1);
      if draws(k) !in records {
        assert IsFirstFree(records, draws, k, k);
      } else if FirstFree(records, draws, k + 1).Some? {
        var i: nat :| k + 1 <= i < 100 && IsFirstFree(records, draws, k + 1, i)
                      && draws(i) == FirstFree(records, draws, k + 1).value;
        assert IsFirstFree(records, draws, k, i);
      }
    }
  }

  predicate IsNineDigits(isDigit: char -> bool, s: string) {
    |s| == 9 && forall i :: 0 <= i < 9 ==> isDigit(s[i])
  }

  /** It is the first of a hundred draws that is free. */
  ghost predicate IsDrawn(records: Records, draws: nat -> string, code: string) {
    exists i: nat :: i < 100 && draws(i) == code && IsFirstFree(records, draws, 0, i)
  }

  lemma DrawnIsFirstFree(records: Records, draws: nat -> string, code: string)
    ensures IsDrawn(records, draws, code) <==> FirstFree(records, draws, 0) == Some(code)
  {
    FirstFreeIsFirst(records, draws, 0);
    if IsDrawn(records, draws, code) {
      var i: nat :| i < 100 && draws(i) == code && IsFirstFree(records, draws, 0, i);
      var k: nat :| 0 <= k < 100 && IsFirstFree(records, draws, 0, k)
                    && draws(k) == FirstFree(records, draws, 0).value;
      assert i == k;
    }
  }

  /** First come, first served: whatever code a session gets was free, and the desired code is
      granted exactly when it is well-formed and free, or happens to be the one drawn. */
  lemma DesiredCodeIsGranted(isDigit: char -> bool, records: Records, desired: string, draws: nat -> string)
    ensures var c := Chosen(isDigit, records, Some(desired), draws);
            && (c.Some? ==> c.value !in records)
            && (c == Some(desired) <==>
                  desired !in records && (IsNineDigits(isDigit, desired) || IsDrawn(records, draws, desired)))
  {
    FirstFreeIsFirst(records, draws, 0);
    DrawnIsFirstFree(records, draws, desired);
  }
}
