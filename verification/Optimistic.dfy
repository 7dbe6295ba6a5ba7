/** The optimistic store of a control entity: entries expire, and reads delete them lazily (optimistic.py). */
module Optimistic {
  import opened Common

  /** `parsed` is what float() makes of a text, if anything. */
  datatype Value = Number(r: real) | Text(s: string, parsed: Option<real>)
  {
    function AsFloat(): Option<real> {
      if Number? then Some(r) else parsed
    }
  }

  datatype Comparison = Comparator(f: (Value, Value) -> bool) | Tolerance(t: real) | Strict

  datatype Entry = Entry(value: Value, at: real)

  // Set and Get carry the reading of the clock they take.
  datatype Event =
    | Set(key: string, value: Value, at: real)
    | Get(key: string, at: real)
    | Clear(key: string)
    | Confirm(key: string, confirmed: Value, how: Comparison)

  /** A text that float() makes nothing of. */
  predicate IsText(v: Value) {
    v.Text? && v.parsed.None?
  }

  /** The number a value has for float(). */
  function Reading(v: Value): real
    requires !IsText(v)
  {
    match v
    case Number(r) => r
    case Text(_, parsed) => parsed.value
  }

  /** abs(x - y) */
  function AbsoluteDifference(x: real, y: real): real {
    if x < y then y - x else x - y
  }

  predicate Within(x: real, y: real, tolerance: real) {
    -tolerance <= x - y <= tolerance
  }

  predicate Matches(how: Comparison, pending: Value, confirmed: Value) {
    match how
    case Comparator(f) => f(pending, confirmed)
    case Tolerance(t) =>
      if pending.AsFloat().Some? && confirmed.AsFloat().Some?
      then Within(pending.AsFloat().value, confirmed.AsFloat().value, t)
      else pending == confirmed
    case Strict => pending == confirmed
  }

  predicate Expired(e: Entry, now: real, ttl: real) {
    now - e.at > ttl
  }

  // ---------------------------------------------------------------- the exact store

  /** The entry of a store that never forgets anything on a read. */
  function Exact(log: seq<Event>, key: string): Option<Entry>
    decreases |log|
  {
    if log == [] then None
    else
      var before, e := Exact(log[..|log| - 1], key), log[|log| - 1];
      if e.key != key then before
      else match e
        case Set(_, value, at) => Some(Entry(value, at))
        case Get(_, _) => before
        case Clear(_) => None
        case Confirm(_, confirmed, how) =>
          if before.Some? && Matches(how, before.value.value, confirmed) then None else before
  }

  /** What a read at `now` should see. */
  function Fresh(entry: Option<Entry>, now: real, ttl: real): Option<Value> {
    if entry.Some? && !Expired(entry.value, now, ttl) then Some(entry.value.value) else None
  }

  /** Event e takes a pending `value` of `key` away or replaces it. */
  predicate Ends(e: Event, key: string, value: Value) {
    e.key == key && (e.Set? || e.Clear? || (e.Confirm? && Matches(e.how, value, e.confirmed)))
  }

  ghost predicate LastSetAt(log: seq<Event>, i: int, key: string, entry: Entry) {
    && 0 <= i < |log| && log[i] == Set(key, entry.value, entry.at)
    && forall j :: i < j < |log| ==> !Ends(log[j], key, entry.value)
  }

  /** The exact store holds an entry exactly when it was the last one set, with no later clear or matching
      confirmation. */
  lemma {:induction false} ExactIsLastSet(log: seq<Event>, key: string, entry: Entry)
    ensures Exact(log, key) == Some(entry) <==> exists i :: LastSetAt(log, i, key, entry)
    decreases |log|
  {
    if log != [] {
      var front, e := log[..|log| - 1], log[|log| - 1];
      ExactIsLastSet(front, key, entry);
      if exists i :: LastSetAt(log, i, key, entry) {
        var i :| LastSetAt(log, i, key, entry);
        if i < |front| {
          assert LastSetAt(front, i, key, entry);
          assert !Ends(log[|front|], key, entry.value);
        }
      }
      if Exact(log, key) == Some(entry) {
        if e.key == key && e.Set? {
          assert LastSetAt(log, |front|, key, entry);
        } else {
          var i :| LastSetAt(front, i, key, entry);
          assert forall j :: i < j < |front| ==> log[j] == front[j];
          assert LastSetAt(log, i, key, entry);
        }
      }
    }
  }

  // ---------------------------------------------------------------- the lazy store

  /** The entry the dictionary holds: as the exact store, but a read of an expired entry drops it. */
  function Lazy(log: seq<Event>, key: string, ttl: real): Option<Entry>
    decreases |log|
  {
    if log == [] then None
    else
      var before, e := Lazy(log[..|log| - 1], key, ttl), log[|log| - 1];
      if e.key != key then before
      else match e
        case Set(_, value, at) => Some(Entry(value, at))
        case Get(_, at) => if before.Some? && Expired(before.value, at, ttl) then None else before
        case Clear(_) => None
        case Confirm(_, confirmed, how) =>
          if before.Some? && Matches(how, before.value.value, confirmed) then None else before
  }

  ghost predicate ClockUpTo(log: seq<Event>, now: real) {
    forall i :: 0 <= i < |log| && (log[i].Set? || log[i].Get?) ==> log[i].at <= now
  }

  /** A read since the last set found the entry expired. */
  predicate ReadTooLate(log: seq<Event>, key: string, ttl: real)
    decreases |log|
  {
    log != [] &&
    var front, e := log[..|log| - 1], log[|log| - 1];
    if e.key == key && e.Set? then false
    else if e.key == key && e.Get? && Exact(front, key).Some? && Expired(Exact(front, key).value, e.at, ttl) then true
    else ReadTooLate(front, key, ttl)
  }

  /** The two stores differ only by entries that a read found expired. */
  lemma {:induction false} LazyIsExactUnlessReadTooLate(log: seq<Event>, key: string, ttl: real)
    ensures Lazy(log, key, ttl) == if ReadTooLate(log, key, ttl) then None else Exact(log, key)
    decreases |log|
  {
    if log != [] {
      LazyIsExactUnlessReadTooLate(log[..|log| - 1], key, ttl);
    }
  }

  /** What was read too late stays expired. */
  lemma {:induction false} TooLateStaysTooLate(log: seq<Event>, key: string, now: real, ttl: real)
    requires ClockUpTo(log, now) && ReadTooLate(log, key, ttl) && Exact(log, key).Some?
    ensures Expired(Exact(log, key).value, now, ttl)
    decreases |log|
  {
    var front, e := log[..|log| - 1], log[|log| - 1];
    if ReadTooLate(front, key, ttl) && Exact(front, key).Some? {
      TooLateStaysTooLate(front, key, now, ttl);
    }
  }

  /** So the lazy deletion never shows in a read. */
  lemma {:induction false} ReadsAgree(log: seq<Event>, key: string, now: real, ttl: real)
    requires ClockUpTo(log, now)
    ensures Fresh(Lazy(log, key, ttl), now, ttl) == Fresh(Exact(log, key), now, ttl)
  {
    LazyIsExactUnlessReadTooLate(log, key, ttl);
    if ReadTooLate(log, key, ttl) && Exact(log, key).Some? {
      TooLateStaysTooLate(log, key, now, ttl);
    }
  }

  /** What a confirmation reports, from the entry it finds. */
  predicate Confirms(entry: Option<Entry>, confirmed: Value, how: Comparison) {
    entry.Some? && Matches(how, entry.value.value, confirmed)
  }

  /** It does show in what clear_if_confirmed returns: the two stores disagree exactly when a matching
      entry was read after it expired. */
  lemma ConfirmationsDiffer(log: seq<Event>, key: string, confirmed: Value, how: Comparison, ttl: real)
    ensures Confirms(Lazy(log, key, ttl), confirmed, how) != Confirms(Exact(log, key), confirmed, how) <==>
            ReadTooLate(log, key, ttl) && Confirms(Exact(log, key), confirmed, how)
  {
    LazyIsExactUnlessReadTooLate(log, key, ttl);
  }

  /** One late read is enough: with it the confirmation reports false, without it true. */
  lemma LateReadChangesConfirmation(key: string, v: Value, at: real, late: real, ttl: real)
    requires late - at > ttl
    ensures Confirms(Lazy([Set(key, v, at)], key, ttl), v, Strict)
    ensures !Confirms(Lazy([Set(key, v, at), Get(key, late)], key, ttl), v, Strict)
  {
    var set_, read := [Set(key, v, at)], [Set(key, v, at), Get(key, late)];
    assert read[..1] == set_ && set_[..0] == [];
    assert Lazy(set_, key, ttl) == Some(Entry(v, at));
  }

  // ---------------------------------------------------------------- the class

  /** Reads a run makes of an exact store that starts after `log`. */
  function ExactReads(log: seq<Event>, events: seq<Event>, ttl: real): seq<Option<Value>>
    decreases |events|
  {
    if events == [] then []
    else
      (if events[0].Get? then [Fresh(Exact(log, events[0].key), events[0].at, ttl)] else [])
      + ExactReads(log + [events[0]], events[1..], ttl)
  }

  /** The clock readings of a run never go back. */
  ghost predicate ClockRuns(events: seq<Event>, from: real)
    decreases |events|
  {
    events == [] ||
    if events[0].Set? || events[0].Get?
    then from <= events[0].at && ClockRuns(events[1..], events[0].at)
    else ClockRuns(events[1..], from)
  }

  class OptimisticState {
    const ttl: real
    var pending: map<string, Entry>
    ghost var log: seq<Event>
    ghost var clock: real

    ghost function Held(key: string): Option<Entry>
      reads this
    {
      if key in pending then Some(pending[key]) else None
    }

    ghost predicate Valid()
      reads this
    {
      ClockUpTo(log, clock) && forall key :: Held(key) == Lazy(log, key, ttl)
    }

    constructor (ttl: real, ghost now: real)
      ensures Valid() && log == [] && clock == now && this.ttl == ttl
    {
      this.ttl := ttl;
      pending, log, clock := map[], [], now;
    }

    /** One event is over: the dictionary follows the lazy store. */
    ghost method Record(e: Event, now: real)
      requires ClockUpTo(log, clock) && clock <= now && (e.Set? || e.Get? ==> e.at <= now)
      requires forall key :: Held(key) == Lazy(log + [e], key, ttl)
      modifies this`log, this`clock
      ensures Valid() && log == old(log) + [e] && clock == now
    {
      log, clock := log + [e], now;
    }

    method SetPending(key: string, value: Value, now: real)
      requires Valid() && clock <= now
      modifies this
      ensures Valid() && clock == now && log == old(log) + [Set(key, value, now)]
      ensures Held(key) == Some(Entry(value, now))
    {
      pending := pending[key := Entry(value, now)];
      ghost var e := Set(key, value, now);
      assert (log + [e])[..|log|] == log;
      Record(e, now);
    }

    /** The answer of the exact store. */
    method GetPending(key: string, now: real) returns (value: Option<Value>)
      requires Valid() && clock <= now
      modifies this
      ensures Valid() && clock == now && log == old(log) + [Get(key, now)]
      ensures value == Fresh(Exact(old(log), key), now, ttl)
    {
      ghost var e := Get(key, now);
      assert (log + [e])[..|log|] == log;
      assert Held(key) == Lazy(log, key, ttl);
      ReadsAgree(log, key, now, ttl);
      if key !in pending {
        value := None;
      } else if now - pending[key].at > ttl {
        pending := pending - {key};
        value := None;
      } else {
        value := Some(pending[key].value);
      }
      Record(e, now);
    }

    method ClearPending(key: string)
      requires Valid()
      modifies this
      ensures Valid() && clock == old(clock) && log == old(log) + [Clear(key)]
      ensures Held(key) == None
    {
      pending := pending - {key};
      ghost var e := Clear(key);
      assert (log + [e])[..|log|] == log;
      Record(e, clock);
    }

    method ClearIfConfirmed(key: string, confirmed: Value, how: Comparison) returns (cleared: bool)
      requires Valid()
      modifies this
      ensures Valid() && clock == old(clock) && log == old(log) + [Confirm(key, confirmed, how)]
      ensures cleared <==> Confirms(Lazy(old(log), key, ttl), confirmed, how)
      ensures cleared ==> key in old(pending)
      ensures key in old(pending) ==>
                var value := old(pending)[key].value;
                && (how.Strict? ==> (cleared <==> value == confirmed))
                && (how.Comparator? ==> (cleared <==> how.f(value, confirmed)))
                && (how.Tolerance? && (IsText(value) || IsText(confirmed)) ==> (cleared <==> value == confirmed))
                && (how.Tolerance? && !IsText(value) && !IsText(confirmed) ==>
                      (cleared <==> AbsoluteDifference(Reading(value), Reading(confirmed)) <= how.t))
      ensures Held(key) == if cleared then None else old(Held(key))
    {
      ghost var e := Confirm(key, confirmed, how);
      assert (log + [e])[..|log|] == log;
      assert Held(key) == Lazy(log, key, ttl);
      cleared := false;
      if key in pending {
        cleared := Matches(how, pending[key].value, confirmed);
        if cleared {
          pending := pending - {key};
        }
      }
      Record(e, clock);
    }

    method Step(e: Event) returns (read: seq<Option<Value>>)
      requires Valid() && (e.Set? || e.Get? ==> clock <= e.at)
      modifies this
      ensures Valid() && log == old(log) + [e] && clock == if e.Set? || e.Get? then e.at else old(clock)
      ensures read == if e.Get? then [Fresh(Exact(old(log), e.key), e.at, ttl)] else []
    {
      read := [];
      match e {
        case Set(key, value, at) => SetPending(key, value, at);
        case Get(key, at) =>
          var value := GetPending(key, at);
          read := [value];
        case Clear(key) => ClearPending(key);
        case Confirm(key, confirmed, how) =>
          var _ := ClearIfConfirmed(key, confirmed, how);
      }
    }

    /** Over any run, every read answers as an exact store would. */
    method Replay(events: seq<Event>) returns (answers: seq<Option<Value>>)
      requires Valid() && ClockRuns(events, clock)
      modifies this
      ensures Valid() && log == old(log) + events
      ensures answers == ExactReads(old(log), events, ttl)
    {
      answers := [];
      for i := 0 to |events|
        invariant Valid() && log == old(log) + events[..i] && ClockRuns(events[i..], clock)
        invariant ExactReads(old(log), events, ttl) == answers + ExactReads(log, events[i..], ttl)
      {
        assert events[i..][0] == events[i] && events[i..][1..] == events[i + 1..];
        var read := Step(events[i]);
        answers := answers + read;
      }
      assert log == old(log) + events;
    }
  }
}
