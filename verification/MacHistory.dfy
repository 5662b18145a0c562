/** What the MAC table means over whole runs of insertions and lookups. */
module MacHistory {
  import opened MacTable

  datatype Operation =
    | Inserting(key: Key, port: int, now: int)
    | LookingUp(key: Key, now: int)

  function Apply(t: Table, op: Operation): Table {
    match op
    case Inserting(key, port, now) => Learn(t, key, port, now)
    case LookingUp(key, now) => Expire(t, key, now)
  }

  /** The table after these operations. */
  function After(ops: seq<Operation>): Table {
    if ops == [] then map[] else Apply(After(ops[..|ops| - 1]), ops[|ops| - 1])
  }

  datatype Insertion = Never | Once(port: int, now: int)

  /** The last insertion of a key. */
  function LastInsertion(ops: seq<Operation>, key: Key): Insertion {
    if ops == [] then Never
    else
      match ops[|ops| - 1]
      case Inserting(k, port, now) => if k == key then Once(port, now) else LastInsertion(ops[..|ops| - 1], key)
      case LookingUp(_, _) => LastInsertion(ops[..|ops| - 1], key)
  }

  /** Operation i looks the key up more than 300 seconds after its last insertion. */
  ghost predicate LooksTooLate(ops: seq<Operation>, i: nat, key: Key) {
    i < |ops| && ops[i].LookingUp? && ops[i].key == key
    && var last := LastInsertion(ops[..i], key);
       last.Once? && ops[i].now - last.now > ENTRY_TTL
  }

  ghost predicate EverTooLate(ops: seq<Operation>, key: Key) {
    exists i :: LooksTooLate(ops, i, key)
  }

  lemma {:induction false} EverTooLateStep(ops: seq<Operation>, op: Operation, key: Key)
    ensures EverTooLate(ops + [op], key) <==> EverTooLate(ops, key) || LooksTooLate(ops + [op], |ops|, key)
  {
    var longer := ops + [op];
    forall i: nat | i < |ops|
      ensures LooksTooLate(longer, i, key) <==> LooksTooLate(ops, i, key)
    {
      assert longer[..i] == ops[..i];
    }
    if EverTooLate(ops, key) {
      var i :| LooksTooLate(ops, i, key);
      assert LooksTooLate(longer, i, key);
    }
  }

  /**
   * The table holds the port and time of each key's last insertion; an entry is expired exactly if some lookup,
   * ever, came more than 300 seconds after the insertion that was then the last.
   */
  lemma {:induction false} HistoryDecides(ops: seq<Operation>, key: Key)
    ensures key in After(ops) <==> LastInsertion(ops, key).Once?
    ensures key in After(ops) ==>
              var last := LastInsertion(ops, key);
              After(ops)[key] == Record(last.port, last.now, EverTooLate(ops, key))
    ensures EverTooLate(ops, key) ==> key in After(ops)
    decreases |ops|
  {
    hide EverTooLate, LooksTooLate;
    if ops == [] {
      NothingTooLate(key);
    } else {
      var before, op := ops[..|ops| - 1], ops[|ops| - 1];
      assert ops == before + [op];
      HistoryDecides(before, key);
      EverTooLateStep(before, op, key);
      LastTooLate(ops, key);
    }
  }

  lemma NothingTooLate(key: Key)
    ensures !EverTooLate([], key)
  {
  }

  lemma LastTooLate(ops: seq<Operation>, key: Key)
    requires ops != []
    ensures var before, op := ops[..|ops| - 1], ops[|ops| - 1];
            LooksTooLate(ops, |ops| - 1, key) <==>
            op.LookingUp? && op.key == key && LastInsertion(before, key).Once?
            && op.now - LastInsertion(before, key).now > ENTRY_TTL
  {
  }

  /** What a lookup answers after any run. */
  lemma Answer(ops: seq<Operation>, key: Key, now: int)
    ensures var last := LastInsertion(ops, key);
            Find(After(ops), key, now)
            == if last.Once? && now - last.now <= ENTRY_TTL && !EverTooLate(ops, key) then last.port else -1
  {
    hide EverTooLate, After, LastInsertion;
    HistoryDecides(ops, key);
  }

  /** Once a lookup came too late, no later insertion makes the key findable again. */
  lemma {:induction false} NeverFoundAgain(ops: seq<Operation>, more: seq<Operation>, key: Key, now: int)
    requires EverTooLate(ops, key)
    ensures EverTooLate(ops + more, key) && Find(After(ops + more), key, now) == -1
    decreases |more|
  {
    hide EverTooLate, After, LastInsertion;
    if more == [] {
      assert ops + more == ops;
    } else {
      var init, last := more[..|more| - 1], more[|more| - 1];
      NeverFoundAgain(ops, init, key, now);
      EverTooLateStep(ops + init, last, key);
      assert ops + more == ops + init + [last];
    }
    Answer(ops + more, key, now);
  }

  /** So inserting a key makes it findable, within 300 seconds, exactly if no lookup of it ever came too late. */
  lemma RelearningWorksIff(ops: seq<Operation>, key: Key, port: int, now: int, later: int)
    requires later - now <= ENTRY_TTL && port != -1
    ensures Find(After(ops + [Inserting(key, port, now)]), key, later) == port <==> !EverTooLate(ops, key)
  {
    hide EverTooLate, After, LooksTooLate;
    var op := Inserting(key, port, now);
    var all := ops + [op];
    assert all[..|all| - 1] == ops;
    EverTooLateStep(ops, op, key);
    LastTooLate(all, key);
    Answer(all, key, later);
  }

  /** A key learned at 0, looked up at 301 and learned again is not found. */
  lemma RelearningFails(key: Key, port: int)
    requires port != -1
    ensures Find(After([Inserting(key, port, 0), LookingUp(key, 301), Inserting(key, port, 301)]), key, 301) == -1
  {
    var ops := [Inserting(key, port, 0), LookingUp(key, 301)];
    assert ops[..1] == [Inserting(key, port, 0)];
    assert LooksTooLate(ops, 1, key);
    RelearningWorksIff(ops, key, port, 301, 301);
    NeverFoundAgain(ops, [Inserting(key, port, 301)], key, 301);
    assert ops + [Inserting(key, port, 301)]
        == [Inserting(key, port, 0), LookingUp(key, 301), Inserting(key, port, 301)];
  }
}
