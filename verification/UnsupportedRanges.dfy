/** The scanner's caches of unsupported register ranges (scanner/capabilities.py): dictionaries keyed by
    intervals, edited in place while a snapshot is walked, against one code per address. */
module UnsupportedRanges {
  import opened Common

  datatype Range = Range(first: int, last: int) {
    predicate Contains(a: int) {
      first <= a <= last
    }

    predicate Meets(start: int, end: int) {
      !(last < start || first > end)
    }
  }

  type RangeMap = map<Range, int>

  // ---------------------------------------------------------------- what a range map means

  ghost predicate WellFormed(m: RangeMap) {
    && (forall r :: r in m ==> r.first <= r.last)
    && (forall r, s :: r in m && s in m && r != s ==> !r.Meets(s.first, s.last))
  }

  ghost predicate CodeAt(m: RangeMap, a: int, code: int) {
    exists r :: r in m && r.Contains(a) && m[r] == code
  }

  ghost predicate Denotes(m: RangeMap, codes: map<int, int>) {
    forall a, c :: CodeAt(m, a, c) <==> a in codes && codes[a] == c
  }

  ghost predicate Covered(m: RangeMap, a: int) {
    exists r :: r in m && r.Contains(a)
  }

  ghost predicate Spans(m: RangeMap, addresses: set<int>) {
    forall a :: Covered(m, a) <==> a in addresses
  }

  ghost function Interval(start: int, end: int): (r: set<int>)
    ensures forall a :: a in r <==> start <= a <= end
  {
    set a | start <= a <= end && Range(start, end).Contains(a)
  }

  ghost function Uniform(start: int, end: int, code: int): (r: map<int, int>)
    ensures forall a :: a in r <==> start <= a <= end
    ensures forall a :: a in r ==> r[a] == code
  {
    map a | a in Interval(start, end) :: code
  }

  // ---------------------------------------------------------------- taking a bite out of one range

  /** What one loop body leaves of range r: nothing inside start..end, the rest of it under its code. */
  function Carve(m: RangeMap, r: Range, start: int, end: int): RangeMap
    requires r in m
  {
    var without := m - {r};
    var left := if r.first < start then without[Range(r.first, start - 1) := m[r]] else without;
    if end < r.last then left[Range(end + 1, r.last) := m[r]] else left
  }

  ghost predicate IsPiece(p: Range, r: Range, start: int, end: int) {
    || (p == Range(r.first, start - 1) && r.first < start)
    || (p == Range(end + 1, r.last) && end < r.last)
  }

  lemma CarvedEntries(m: RangeMap, r: Range, start: int, end: int)
    requires WellFormed(m) && r in m && start <= end && r.Meets(start, end)
    ensures forall p :: IsPiece(p, r, start, end) ==>
            p.first <= p.last && r.first <= p.first && p.last <= r.last && !p.Meets(start, end)
    ensures forall s :: s in Carve(m, r, start, end) <==> (s in m && s != r) || IsPiece(s, r, start, end)
    ensures forall s :: s in m && s != r ==> Carve(m, r, start, end)[s] == m[s]
    ensures forall p :: IsPiece(p, r, start, end) ==> Carve(m, r, start, end)[p] == m[r]
  {
    forall p | IsPiece(p, r, start, end) ensures p != r && p !in m {
      assert p.Meets(r.first, r.last);
    }
  }

  lemma CarveWellFormed(m: RangeMap, r: Range, start: int, end: int)
    requires WellFormed(m) && r in m && start <= end && r.Meets(start, end)
    ensures WellFormed(Carve(m, r, start, end))
  {
    CarvedEntries(m, r, start, end);
    forall p, s | p in Carve(m, r, start, end) && s in Carve(m, r, start, end) && p != s
      ensures !p.Meets(s.first, s.last)
    {
      if p in m && p != r {
        assert !p.Meets(r.first, r.last);
      }
      if s in m && s != r {
        assert !s.Meets(r.first, r.last);
      }
    }
  }

  lemma CarveCodes(m: RangeMap, r: Range, start: int, end: int, a: int, c: int)
    requires WellFormed(m) && r in m && start <= end && r.Meets(start, end)
    ensures CodeAt(Carve(m, r, start, end), a, c) <==> CodeAt(m, a, c) && !(r.Contains(a) && start <= a <= end)
  {
    var carved := Carve(m, r, start, end);
    CarvedEntries(m, r, start, end);
    if CodeAt(carved, a, c) {
      var s :| s in carved && s.Contains(a) && carved[s] == c;
      if s in m && s != r {
        assert !s.Meets(r.first, r.last);
      } else {
        assert IsPiece(s, r, start, end);
        assert r.Contains(a) && m[r] == c;
      }
    }
    if CodeAt(m, a, c) && !(r.Contains(a) && start <= a <= end) {
      var s :| s in m && s.Contains(a) && m[s] == c;
      if s == r {
        var p := if a < start then Range(r.first, start - 1) else Range(end + 1, r.last);
        assert IsPiece(p, r, start, end) && p.Contains(a);
      } else {
        assert s in carved;
      }
    }
  }

  /** The final assignment, once nothing is left inside start..end, at one address and code. */
  lemma FilledAt(m: RangeMap, start: int, end: int, code: int, a: int, c: int)
    requires start <= end && forall r :: r in m ==> !r.Meets(start, end)
    ensures CodeAt(m[Range(start, end) := code], a, c) <==> if start <= a <= end then c == code else CodeAt(m, a, c)
  {
    var hole := Range(start, end);
    var filled := m[hole := code];
    if CodeAt(filled, a, c) {
      var r :| r in filled && r.Contains(a) && filled[r] == c;
      assert r != hole ==> r in m && m[r] == c && !r.Meets(start, end);
    }
    if start <= a <= end && c == code {
      assert filled[hole] == code && hole.Contains(a);
    }
    if CodeAt(m, a, c) {
      var r :| r in m && r.Contains(a) && m[r] == c;
      assert r in filled && filled[r] == c;
    }
  }

  lemma FilledWellFormed(m: RangeMap, start: int, end: int, code: int)
    requires WellFormed(m) && start <= end && forall r :: r in m ==> !r.Meets(start, end)
    ensures WellFormed(m[Range(start, end) := code])
  {
  }

  lemma FilledDenotes(m: RangeMap, codes: map<int, int>, start: int, end: int, code: int)
    requires start <= end && Denotes(m, codes) && forall r :: r in m ==> !r.Meets(start, end)
    ensures Denotes(m[Range(start, end) := code], codes + Uniform(start, end, code))
  {
    var uniform := Uniform(start, end, code);
    var filled, sum := m[Range(start, end) := code], codes + uniform;
    forall a, c ensures CodeAt(filled, a, c) <==> a in sum && sum[a] == c {
      FilledAt(m, start, end, code, a, c);
      assert a in uniform <==> start <= a <= end;
    }
  }

  // ---------------------------------------------------------------- the hull of an input mark

  /** hull covers start..end and every stored range that meets it, and nothing else. */
  ghost predicate IsHull(m: RangeMap, start: int, end: int, hull: Range) {
    forall a :: hull.Contains(a) <==>
      (start <= a <= end || exists r :: r in m && r.Meets(start, end) && r.Contains(a))
  }

  ghost function Untouched(m: RangeMap, start: int, end: int): RangeMap {
    map r | r in m && !r.Meets(start, end) :: m[r]
  }

  /** Every range that meets start..end has been replaced by the hull, and the others are as before. */
  ghost predicate Merged(before: RangeMap, after: RangeMap, start: int, end: int, hull: Range, code: int) {
    IsHull(before, start, end, hull) && after == Untouched(before, start, end)[hull := code]
  }

  ghost predicate MergedUnder(before: RangeMap, after: RangeMap, start: int, end: int, code: int) {
    exists hull :: Merged(before, after, start, end, hull, code)
  }

  /** code or 0 */
  function StoredCode(code: Option<int>): int {
    if code.Some? then code.value else 0
  }

  datatype RegisterType = InputRegisters | HoldingRegisters | OtherRegisters

  class Scanner {
    var unsupportedHolding: RangeMap
    var unsupportedInput: RangeMap
    var failedHolding: set<int>
    var failedInput: set<int>

    // one code per unsupported holding address; the set of unsupported input addresses
    ghost var holdingCodes: map<int, int>
    ghost var inputAddresses: set<int>

    ghost predicate Valid()
      reads this
    {
      && WellFormed(unsupportedHolding) && Denotes(unsupportedHolding, holdingCodes)
      && WellFormed(unsupportedInput) && Spans(unsupportedInput, inputAddresses)
    }

    constructor ()
      ensures Valid()
      ensures holdingCodes == map[] && inputAddresses == {} && failedHolding == {} && failedInput == {}
    {
      unsupportedHolding, unsupportedInput := map[], map[];
      failedHolding, failedInput := {}, {};
      holdingCodes, inputAddresses := map[], {};
    }

    method MarkHoldingUnsupported(start: int, end: int, code: int)
      requires Valid() && start <= end
      modifies this`unsupportedHolding, this`holdingCodes
      ensures Valid()
      ensures holdingCodes == old(holdingCodes) + Uniform(start, end, code)
      ensures Range(start, end) in unsupportedHolding
    {
      CarveAway(start, end);
      FilledWellFormed(unsupportedHolding, start, end, code);
      FilledDenotes(unsupportedHolding, holdingCodes, start, end, code);
      unsupportedHolding := unsupportedHolding[Range(start, end) := code];
      holdingCodes := holdingCodes + Uniform(start, end, code);
    }

    /** The loop over the snapshot, shared in shape by marking a range and by clearing one address:
        whatever order the entries come in, everything inside start..end goes and nothing else. */
    method CarveAway(start: int, end: int)
      requires Valid() && start <= end
      modifies this`unsupportedHolding, this`holdingCodes
      ensures Valid()
      ensures holdingCodes == old(holdingCodes) - Interval(start, end)
      ensures forall r :: r in unsupportedHolding ==> !r.Meets(start, end)
    {
      ghost var before := unsupportedHolding;
      var todo := unsupportedHolding.Keys;
      while todo != {}
        modifies this`unsupportedHolding
        invariant WellFormed(unsupportedHolding)
        invariant todo <= unsupportedHolding.Keys
        invariant forall r :: r in unsupportedHolding && r !in todo ==> !r.Meets(start, end)
        invariant forall a, c :: a < start || end < a ==> (CodeAt(unsupportedHolding, a, c) <==> CodeAt(before, a, c))
        decreases |todo|
      {
        var r :| r in todo;
        todo := todo - {r};
        if r.last < start || r.first > end {
          continue;
        }
        ghost var m := unsupportedHolding;
        CarvedEntries(m, r, start, end);
        CarveWellFormed(m, r, start, end);
        forall a, c | a < start || end < a ensures CodeAt(Carve(m, r, start, end), a, c) <==> CodeAt(before, a, c) {
          CarveCodes(m, r, start, end, a, c);
        }
        unsupportedHolding := Carve(unsupportedHolding, r, start, end);
      }
      holdingCodes := holdingCodes - Interval(start, end);
      forall a, c | start <= a <= end ensures !CodeAt(unsupportedHolding, a, c) {
        assert forall r :: r in unsupportedHolding && !r.Meets(start, end) ==> !r.Contains(a);
      }
    }

    method MarkHoldingSupported(address: int)
      requires Valid()
      modifies this`unsupportedHolding, this`holdingCodes, this`failedHolding
      ensures Valid()
      ensures holdingCodes == old(holdingCodes) - {address}
      ensures failedHolding == old(failedHolding) - {address}
    {
      failedHolding := failedHolding - {address};
      CarveAway(address, address);
      assert Interval(address, address) == {address};
    }

    /** Ranges that meet the new one are absorbed into it; which ones, and the hull, do not depend on
        the order of the snapshot even though the bounds grow while it is walked. */
    method MarkInputUnsupported(start: int, end: int, code: Option<int>)
      requires Valid() && start <= end
      modifies this`unsupportedInput, this`inputAddresses
      ensures Valid()
      ensures inputAddresses == old(inputAddresses) + Interval(start, end)
      ensures MergedUnder(old(unsupportedInput), unsupportedInput, start, end,
                          match code case Some(c) => c case None => 0)
    {
      ghost var before := unsupportedInput;
      var first, last := start, end;
      var todo := unsupportedInput.Keys;
      while todo != {}
        modifies this`unsupportedInput
        invariant Absorbing(before, unsupportedInput, todo, start, end, first, last)
        decreases |todo|
      {
        var r :| r in todo;
        assert todo == todo - {r} + {r};
        todo := todo - {r};
        if last < r.first || first > r.last {
          SkipOne(before, unsupportedInput, todo, start, end, first, last, r);
          continue;
        }
        AbsorbOne(before, unsupportedInput, todo, start, end, first, last, r);
        unsupportedInput := unsupportedInput - {r};
        first := Min(first, r.first);
        last := Max(last, r.last);
      }
      var hull, stored := Range(first, last), StoredCode(code);
      InputMarked(before, unsupportedInput, inputAddresses, start, end, hull, stored);
      unsupportedInput := unsupportedInput[hull := stored];
      inputAddresses := inputAddresses + Interval(start, end);
    }

    method MarkInputSupported(address: int)
      requires Valid()
      modifies this`unsupportedInput, this`inputAddresses, this`failedInput
      ensures Valid()
      ensures inputAddresses == old(inputAddresses) - {address}
      ensures failedInput == old(failedInput) - {address}
      ensures forall a, c :: CodeAt(unsupportedInput, a, c) <==> a != address && CodeAt(old(unsupportedInput), a, c)
    {
      failedInput := failedInput - {address};
      ghost var before := unsupportedInput;
      var todo := unsupportedInput.Keys;
      while todo != {}
        modifies this`unsupportedInput
        invariant Clearing(before, unsupportedInput, todo, address)
        decreases |todo|
      {
        var r :| r in todo;
        todo := todo - {r};
        if r.first <= address <= r.last {
          ClearOne(before, unsupportedInput, todo, address, r);
          unsupportedInput := Carve(unsupportedInput, r, address, address);
        }
      }
      ClearedAll(before, unsupportedInput, inputAddresses, address);
      inputAddresses := inputAddresses - {address};
    }

    /** The addresses no unsupported span covers. */
    method FilterUnsupportedAddresses(kind: RegisterType, addrs: set<int>) returns (kept: set<int>)
      requires Valid()
      ensures kind.InputRegisters? ==> kept == addrs - inputAddresses
      ensures kind.HoldingRegisters? ==> kept == addrs - holdingCodes.Keys
      ensures kind.OtherRegisters? ==> kept == addrs
    {
      if kind.OtherRegisters? {
        return addrs;
      }
      var ranges := if kind.InputRegisters? then unsupportedInput else unsupportedHolding;
      if ranges == map[] {
        kept := addrs;
      } else {
        kept := set a | a in addrs && !exists r :: r in ranges && r.Contains(a);
      }
      assert forall a :: a in kept <==> a in addrs && !Covered(ranges, a);
      if kind.HoldingRegisters? {
        CoveredHasCode(ranges, holdingCodes);
        assert forall a :: a in kept <==> a in addrs && a !in holdingCodes;
      } else {
        assert forall a :: a in kept <==> a in addrs && a !in inputAddresses;
      }
    }

    // ---------------------------------------------------------------- whole runs

    /** Any sequence of marks, in the order the scanner makes them. */
    method Replay(events: seq<Event>)
      requires Valid() && holdingCodes == map[] && inputAddresses == {}
      requires forall i :: 0 <= i < |events| ==> events[i].Legal()
      modifies this
      ensures Valid()
      ensures Denotes(unsupportedHolding, HoldingAfter(events))
      ensures Spans(unsupportedInput, InputAfter(events))
    {
      for i := 0 to |events|
        invariant Valid()
        invariant holdingCodes == HoldingAfter(events[..i]) && inputAddresses == InputAfter(events[..i])
      {
        assert events[..i + 1][..i] == events[..i];
        match events[i] {
          case HoldingUnsupported(start, end, code) => MarkHoldingUnsupported(start, end, code);
          case HoldingSupported(address) => MarkHoldingSupported(address);
          case InputUnsupported(start, end, code) => MarkInputUnsupported(start, end, code);
          case InputSupported(address) => MarkInputSupported(address);
        }
      }
      assert events[..|events|] == events;
    }
  }

  lemma CoveredHasCode(m: RangeMap, codes: map<int, int>)
    requires Denotes(m, codes)
    ensures forall a :: Covered(m, a) <==> a in codes
  {
    forall a ensures Covered(m, a) <==> a in codes {
      if Covered(m, a) {
        var r :| r in m && r.Contains(a);
        assert CodeAt(m, a, m[r]);
      }
      if a in codes {
        assert CodeAt(m, a, codes[a]);
      }
    }
  }

  /** Loop invariant of MarkInputSupported: the address is gone from what has been visited, and no other
      address has moved. */
  ghost predicate Clearing(before: RangeMap, m: RangeMap, todo: set<Range>, address: int) {
    && WellFormed(m) && todo <= m.Keys
    && (forall r :: r in m && r !in todo ==> !r.Contains(address))
    && (forall a, c :: a != address ==> (CodeAt(m, a, c) <==> CodeAt(before, a, c)))
  }

  lemma ClearOne(before: RangeMap, m: RangeMap, todo: set<Range>, address: int, r: Range)
    requires r !in todo && r.Contains(address) && Clearing(before, m, todo + {r}, address)
    ensures Clearing(before, Carve(m, r, address, address), todo, address)
  {
    CarvedEntries(m, r, address, address);
    CarveWellFormed(m, r, address, address);
    forall a, c | a != address ensures CodeAt(Carve(m, r, address, address), a, c) <==> CodeAt(before, a, c) {
      CarveCodes(m, r, address, address, a, c);
    }
  }

  lemma ClearedAll(before: RangeMap, m: RangeMap, addresses: set<int>, address: int)
    requires Clearing(before, m, {}, address) && Spans(before, addresses)
    ensures Spans(m, addresses - {address})
    ensures forall a, c :: CodeAt(m, a, c) <==> a != address && CodeAt(before, a, c)
  {
    forall a ensures Covered(m, a) <==> a != address && Covered(before, a) {
      if Covered(m, a) {
        var r :| r in m && r.Contains(a);
        assert CodeAt(m, a, m[r]);
      }
      if a != address && Covered(before, a) {
        var r :| r in before && r.Contains(a);
        assert CodeAt(before, a, before[r]);
      }
    }
  }

  /** Loop invariant of MarkInputUnsupported: what is gone lies under first..last, which holds nothing
      else; what is left and already visited keeps clear of it. */
  ghost predicate Absorbing(before: RangeMap, m: RangeMap, todo: set<Range>, start: int, end: int, first: int,
      last: int)
  {
    && WellFormed(before) && todo <= m.Keys
    && first <= start <= end <= last
    && (forall r :: r in m ==> r in before && m[r] == before[r])
    && (forall r :: r in before && r !in m ==> r.Meets(start, end) && first <= r.first && r.last <= last)
    && (forall r :: r in m && r !in todo ==> !r.Meets(first, last))
    && (forall a :: first <= a <= last ==> UnderMark(before, m, start, end, a))
  }

  /** The address was marked or belongs to a range already taken in. */
  ghost predicate UnderMark(before: RangeMap, m: RangeMap, start: int, end: int, a: int) {
    start <= a <= end || exists r :: r in before && r !in m && r.Contains(a)
  }

  lemma SkipOne(before: RangeMap, m: RangeMap, todo: set<Range>, start: int, end: int, first: int, last: int, r: Range)
    requires Absorbing(before, m, todo + {r}, start, end, first, last) && !r.Meets(first, last)
    ensures Absorbing(before, m, todo, start, end, first, last)
  {
  }

  lemma AbsorbOne(before: RangeMap, m: RangeMap, todo: set<Range>, start: int, end: int, first: int, last: int,
      r: Range)
    requires r !in todo && Absorbing(before, m, todo + {r}, start, end, first, last)
    requires r.Meets(first, last)
    ensures Absorbing(before, m - {r}, todo, start, end, Min(first, r.first), Max(last, r.last))
  {
    // r meets the hull at an address that is marked: no range already taken in can share it
    var a := Max(first, r.first);
    assert UnderMark(before, m, start, end, a);
    forall s | s in before && s !in m ensures !s.Contains(a) {
      assert !s.Meets(r.first, r.last);
    }
    forall x | Min(first, r.first) <= x <= Max(last, r.last) ensures UnderMark(before, m - {r}, start, end, x) {
      if first <= x <= last {
        assert UnderMark(before, m, start, end, x);
      } else {
        assert r.Contains(x);
      }
    }
    forall s | s in m - {r} && s !in todo ensures !s.Meets(Min(first, r.first), Max(last, r.last)) {
      assert !s.Meets(first, last) && !s.Meets(r.first, r.last);
    }
  }

  lemma AbsorbedAll(before: RangeMap, m: RangeMap, start: int, end: int, first: int, last: int)
    requires Absorbing(before, m, {}, start, end, first, last)
    ensures m == Untouched(before, start, end)
    ensures IsHull(before, start, end, Range(first, last))
  {
    var hull := Range(first, last);
    forall a ensures hull.Contains(a) <==>
            (start <= a <= end || exists r :: r in before && r.Meets(start, end) && r.Contains(a)) {
      if hull.Contains(a) {
        assert UnderMark(before, m, start, end, a);
      }
    }
  }

  lemma HullSpans(before: RangeMap, after: RangeMap, start: int, end: int, hull: Range, code: int)
    requires WellFormed(before) && start <= end && Merged(before, after, start, end, hull, code)
    ensures WellFormed(after) && MergedUnder(before, after, start, end, code)
    ensures forall a :: Covered(after, a) <==> Covered(before, a) || start <= a <= end
  {
    assert hull.Contains(start) && hull.Contains(end);
    forall r | r in before && !r.Meets(start, end) ensures !r.Meets(hull.first, hull.last) {
      var a := Max(r.first, hull.first);
      assert forall s :: s in before && s.Meets(start, end) ==> !s.Meets(r.first, r.last);
      assert r.Contains(a) ==> !hull.Contains(a);
    }
    forall a ensures Covered(after, a) <==> Covered(before, a) || start <= a <= end {
      if Covered(before, a) {
        var r :| r in before && r.Contains(a);
        if r.Meets(start, end) {
          assert hull.Contains(a) && hull in after;
        } else {
          assert r in after;
        }
      }
      if start <= a <= end {
        assert hull.Contains(a) && hull in after;
      }
      if Covered(after, a) {
        var r :| r in after && r.Contains(a);
        assert r == hull || r in before;
      }
    }
  }

  /** The final assignment of an input mark. */
  lemma InputMarked(before: RangeMap, m: RangeMap, addresses: set<int>, start: int, end: int, hull: Range, code: int)
    requires Absorbing(before, m, {}, start, end, hull.first, hull.last) && Spans(before, addresses)
    ensures WellFormed(m[hull := code]) && MergedUnder(before, m[hull := code], start, end, code)
    ensures Spans(m[hull := code], addresses + Interval(start, end))
  {
    AbsorbedAll(before, m, start, end, hull.first, hull.last);
    HullSpans(before, m[hull := code], start, end, hull, code);
  }

  datatype Event =
    | HoldingUnsupported(start: int, end: int, code: int)
    | HoldingSupported(address: int)
    | InputUnsupported(start: int, end: int, maybeCode: Option<int>)
    | InputSupported(address: int)
  {
    predicate Legal() {
      (HoldingUnsupported? || InputUnsupported?) ==> start <= end
    }

    predicate TouchesHolding(a: int) {
      (HoldingUnsupported? && start <= a <= end) || (HoldingSupported? && address == a)
    }

    predicate TouchesInput(a: int) {
      (InputUnsupported? && start <= a <= end) || (InputSupported? && address == a)
    }
  }

  ghost function HoldingAfter(events: seq<Event>): map<int, int> {
    if events == [] then map[]
    else
      var before := HoldingAfter(events[..|events| - 1]);
      match events[|events| - 1]
      case HoldingUnsupported(start, end, code) => before + Uniform(start, end, code)
      case HoldingSupported(address) => before - {address}
      case _ => before
  }

  ghost function InputAfter(events: seq<Event>): set<int> {
    if events == [] then {}
    else
      var before := InputAfter(events[..|events| - 1]);
      match events[|events| - 1]
      case InputUnsupported(start, end, _) => before + Interval(start, end)
      case InputSupported(address) => before - {address}
      case _ => before
  }

  /** The latest event that touches an address decides: unsupported under that event's code, or supported. */
  lemma {:induction false} LatestMarkWins(events: seq<Event>, a: int, last: nat)
    requires last < |events| && events[last].TouchesHolding(a)
    requires forall j :: last < j < |events| ==> !events[j].TouchesHolding(a)
    ensures if events[last].HoldingSupported? then a !in HoldingAfter(events)
            else a in HoldingAfter(events) && HoldingAfter(events)[a] == events[last].code
    decreases |events|
  {
    if last < |events| - 1 {
      LatestMarkWins(events[..|events| - 1], a, last);
      assert !events[|events| - 1].TouchesHolding(a);
    }
  }

  lemma {:induction false} UntouchedStaysSupported(events: seq<Event>, a: int)
    ensures (forall j :: 0 <= j < |events| ==> !events[j].TouchesHolding(a)) ==> a !in HoldingAfter(events)
    ensures (forall j :: 0 <= j < |events| ==> !events[j].TouchesInput(a)) ==> a !in InputAfter(events)
    decreases |events|
  {
    if events != [] {
      UntouchedStaysSupported(events[..|events| - 1], a);
    }
  }

  lemma {:induction false} LatestInputMarkWins(events: seq<Event>, a: int, last: nat)
    requires last < |events| && events[last].TouchesInput(a)
    requires forall j :: last < j < |events| ==> !events[j].TouchesInput(a)
    ensures a in InputAfter(events) <==> events[last].InputUnsupported?
    decreases |events|
  {
    if last < |events| - 1 {
      LatestInputMarkWins(events[..|events| - 1], a, last);
      assert !events[|events| - 1].TouchesInput(a);
    }
  }
}
