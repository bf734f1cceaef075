/** The command-line filter (src/main.rs): parsing the frame selection
    `start:stop:step` and the atom selection `stop`, the rule that decides
    frame by frame what is written, and the frame that is written: the
    header with the new atom count, then the selected positions as floats
    or the leading part of the compressed block. */
module Filter {
  import opened Bits
  import opened Errors
  import opened Xdr
  import opened Selection
  import opened Xtc

  /** `std::num::IntErrorKind` */
  datatype IntErrorKind = Empty | InvalidDigit | PosOverflow | Zero

  /** The outcome of `str::parse`: a value or a `ParseIntError`. */
  datatype Parsed<+T> = Value(value: T) | Failed(kind: IntErrorKind) {
    predicate IsFailure() {
      Failed?
    }

    function PropagateFailure<U>(): Parsed<U>
      requires Failed?
    {
      Failed(kind)
    }

    function Extract(): T
      requires Value?
    {
      value
    }
  }

  predicate IsDigit(c: char)
  {
    '0' <= c <= '9'
  }

  /** The decimal digits of `s` after `acc`, left to right: a character
      that is not a digit fails, and so does a value that reaches `limit`. */
  function Scan(s: string, acc: nat, limit: nat): (r: Parsed<nat>)
    requires acc < limit
    ensures r.Value? ==> r.value < limit
    decreases |s|
  {
    if s == [] then Value(acc)
    else if !IsDigit(s[0]) then Failed(InvalidDigit)
    else
      var a := acc * 10 + (s[0] as int - '0' as int);
      if a >= limit then Failed(PosOverflow) else Scan(s[1..], a, limit)
  }

  /** `u64::from_str` and `u32::from_str` (`limit` is `2^64` or `2^32`): an
      empty string, a lone sign, a minus sign or any other non-digit fails;
      one leading `+` is allowed. */
  function ParseUnsigned(s: string, limit: nat): (r: Parsed<nat>)
    requires limit > 0
    ensures r.Value? ==> r.value < limit
  {
    if |s| == 0 then Failed(Empty)
    else if (s[0] == '+' || s[0] == '-') && |s| == 1 then Failed(InvalidDigit)
    else if s[0] == '+' then Scan(s[1..], 0, limit)
    else Scan(s, 0, limit)
  }

  /** `NonZeroU64::from_str`: a `u64` that is not zero. */
  function ParseStep(s: string): (r: Parsed<Step>)
    ensures r.Value? <==> ParseUnsigned(s, U64_LIMIT).Value? && ParseUnsigned(s, U64_LIMIT).value != 0
    ensures r.Value? ==> r.value == ParseUnsigned(s, U64_LIMIT).value
    ensures ParseUnsigned(s, U64_LIMIT) == Value(0) ==> r == Failed(Zero)
  {
    var v :- ParseUnsigned(s, U64_LIMIT);
    if v == 0 then Failed(Zero) else Value(v)
  }

  /** The decimal digits of `n`. */
  function Decimal(n: nat): (s: string)
    ensures |s| > 0 && forall i :: 0 <= i < |s| ==> IsDigit(s[i])
  {
    if n < 10 then [('0' as int + n) as char]
    else Decimal(n / 10) + [('0' as int + n % 10) as char]
  }

  /** Scanning one more character continues from where the scan of the
      prefix ended. */
  lemma {:induction false} ScanSnoc(s: string, c: char, acc: nat, limit: nat)
    requires acc < limit
    ensures Scan(s + [c], acc, limit)
         == (match Scan(s, acc, limit) case Failed(k) => Failed(k) case Value(v) => Scan([c], v, limit))
    decreases |s|
  {
    if s != [] {
      assert (s + [c])[1..] == s[1..] + [c];
      if IsDigit(s[0]) {
        var a := acc * 10 + (s[0] as int - '0' as int);
        if a < limit {
          ScanSnoc(s[1..], c, a, limit);
        }
      }
    }
  }

  /** Parsing the decimal digits of `n` gives `n` when it fits, and an
      overflow when it does not. */
  lemma {:induction false} ScanDecimal(n: nat, limit: nat)
    requires limit > 0
    ensures Scan(Decimal(n), 0, limit) == if n < limit then Value(n) else Failed(PosOverflow)
  {
    if n >= 10 {
      ScanDecimal(n / 10, limit);
      ScanSnoc(Decimal(n / 10), ('0' as int + n % 10) as char, 0, limit);
    }
  }

  lemma ParseDecimal(n: nat, limit: nat)
    requires limit > 0
    ensures ParseUnsigned(Decimal(n), limit) == if n < limit then Value(n) else Failed(PosOverflow)
  {
    ScanDecimal(n, limit);
  }

  /** `str::split(sep)`: the pieces between the separators, at least one. */
  function Split(s: string, sep: char): (parts: seq<string>)
    ensures |parts| >= 1
  {
    if s == [] then [[]]
    else
      var rest := Split(s[1..], sep);
      if s[0] == sep then [[]] + rest else [[s[0]] + rest[0]] + rest[1..]
  }

  lemma {:induction false} SplitPlain(a: string, sep: char)
    requires sep !in a
    ensures Split(a, sep) == [a]
  {
    if a != [] {
      SplitPlain(a[1..], sep);
      assert [a[0]] + a[1..] == a;
    }
  }

  lemma {:induction false} SplitJoin(a: string, b: string, sep: char)
    requires sep !in a
    ensures Split(a + [sep] + b, sep) == [a] + Split(b, sep)
  {
    if a == [] {
      assert a + [sep] + b == [sep] + b;
      assert ([sep] + b)[1..] == b;
    } else {
      assert (a + [sep] + b)[1..] == a[1..] + [sep] + b;
      SplitJoin(a[1..], b, sep);
      assert [a[0]] + a[1..] == a;
    }
  }

  /** The component `i` of a selection, if there is one, parsed by `parse`. */
  function Component(parts: seq<string>, i: nat): (r: Parsed<Option<U64>>)
    ensures r.Value? && r.value.Some? ==> i < |parts| && ParseUnsigned(parts[i], U64_LIMIT) == Value(r.value.value)
    ensures i >= |parts| ==> r == Value(None)
  {
    if i < |parts| then
      var v :- ParseUnsigned(parts[i], U64_LIMIT);
      Value(Some(v))
    else Value(None)
  }

  function StepComponent(parts: seq<string>): (r: Parsed<Option<Step>>)
    ensures |parts| <= 2 ==> r == Value(None)
  {
    if |parts| > 2 then
      var v :- ParseStep(parts[2]);
      Value(Some(v))
    else Value(None)
  }

  /** `frame_selection_parser`: the first three components of the string
      split at `:` are `start`, `end` and `step`; missing ones take the
      range's defaults, further ones are not looked at. */
  function FrameSelectionParser(s: string): (r: Parsed<FrameSelection>)
    ensures r.Value? ==> r.value.Range?
    ensures r.Value? && ':' !in s ==> r.value.range.end == None && r.value.range.step == 1
  {
    var parts := Split(s, ':');
    assert ':' !in s ==> parts == [s] by {
      if ':' !in s {
        SplitPlain(s, ':');
      }
    }
    FromParts(parts)
  }

  /** The selection from the components of a frame selection string. */
  function FromParts(parts: seq<string>): (r: Parsed<FrameSelection>)
    ensures r.Value? ==> r.value.Range?
    ensures r.Value? && |parts| == 1 ==> r.value.range.end == None && r.value.range.step == 1
  {
    var start :- Component(parts, 0);
    var end :- Component(parts, 1);
    var step :- StepComponent(parts);
    Value(FrameSelection.Range(RangeNew(start, end, step)))
  }

  /** `atom_selection_parser`: a `u32` `n` selects `Until(n)`. */
  function AtomSelectionParser(s: string): (r: Parsed<AtomSelection>)
    ensures r.Value? <==> ParseUnsigned(s, U32_LIMIT).Value?
    ensures r.Value? ==> r.value.Until? && r.value.until == ParseUnsigned(s, U32_LIMIT).value
  {
    var until :- ParseUnsigned(s, U32_LIMIT);
    Value(Until(until))
  }

  /** A full selection `a:b:k` gives the range from `a` to `b` by `k`. */
  lemma FrameParserFull(a: U64, b: U64, k: Step)
    ensures FrameSelectionParser(Decimal(a) + ":" + Decimal(b) + ":" + Decimal(k))
         == Value(FrameSelection.Range(Range.Range(a, Some(b), k)))
  {
    var x, y, z := Decimal(a), Decimal(b), Decimal(k);
    assert ':' !in x && ':' !in y && ':' !in z;
    SplitThree(x, y, z);
    ParseDecimal(a, U64_LIMIT);
    ParseDecimal(b, U64_LIMIT);
    ParseDecimal(k, U64_LIMIT);
  }

  /** A bare number is the start of a range with the default end and step. */
  lemma FrameParserStart(a: U64)
    ensures FrameSelectionParser(Decimal(a)) == Value(FrameSelection.Range(Range.Range(a, None, 1)))
  {
    assert ':' !in Decimal(a);
    SplitPlain(Decimal(a), ':');
    ParseDecimal(a, U64_LIMIT);
  }

  /** Components after the third are not parsed, whatever they hold. */
  lemma FrameParserIgnoresRest(x: string, y: string, z: string, rest: string)
    requires ':' !in x && ':' !in y && ':' !in z
    ensures FrameSelectionParser(x + ":" + y + ":" + z + ":" + rest)
         == FrameSelectionParser(x + ":" + y + ":" + z)
  {
    var long := Split(x + ":" + y + ":" + z + ":" + rest, ':');
    var short := Split(x + ":" + y + ":" + z, ':');
    SplitFour(x, y, z, rest);
    SplitThree(x, y, z);
    assert long[..3] == short;
    assert FromParts(long) == FromParts(short) by {
      assert long[0] == short[0] && long[1] == short[1] && long[2] == short[2];
    }
  }

  lemma SplitThree(x: string, y: string, z: string)
    requires ':' !in x && ':' !in y && ':' !in z
    ensures Split(x + ":" + y + ":" + z, ':') == [x, y, z]
  {
    assert x + ":" + y + ":" + z == x + [':'] + (y + [':'] + z);
    SplitJoin(x, y + [':'] + z, ':');
    SplitJoin(y, z, ':');
    SplitPlain(z, ':');
  }

  lemma SplitFour(x: string, y: string, z: string, rest: string)
    requires ':' !in x && ':' !in y && ':' !in z
    ensures Split(x + ":" + y + ":" + z + ":" + rest, ':') == [x, y, z] + Split(rest, ':')
  {
    assert x + ":" + y + ":" + z + ":" + rest == x + [':'] + (y + [':'] + (z + [':'] + rest));
    SplitJoin(x, y + [':'] + (z + [':'] + rest), ':');
    SplitJoin(y, z + [':'] + rest, ':');
    SplitJoin(z, rest, ':');
  }

  /** An empty first component, as in `:100`, fails to parse. */
  lemma FrameParserEmptyStart(t: string)
    ensures FrameSelectionParser(":" + t) == Failed(Empty)
  {
    assert ":" + t == [] + [':'] + t;
    SplitJoin([], t, ':');
  }

  /** A step of zero is refused. */
  lemma FrameParserZeroStep(a: U64, b: U64)
    ensures FrameSelectionParser(Decimal(a) + ":" + Decimal(b) + ":0") == Failed(Zero)
  {
    var x, y := Decimal(a), Decimal(b);
    assert ':' !in x && ':' !in y;
    assert x + ":" + y + ":0" == x + ":" + y + ":" + "0";
    SplitThree(x, y, "0");
    ParseDecimal(a, U64_LIMIT);
    ParseDecimal(b, U64_LIMIT);
    assert ParseStep("0") == Failed(Zero);
  }

  /** The atom selection of a number is `Until` that number when it fits a
      `u32`, and an overflow otherwise. */
  lemma AtomParserDecimal(n: nat)
    ensures AtomSelectionParser(Decimal(n)) == if n < U32_LIMIT then Value(Until(n)) else Failed(PosOverflow)
  {
    ParseDecimal(n, U32_LIMIT);
  }

  /** What `filter_frames` does with a frame, from its `is_included`. */
  datatype Verdict = Write | Skip | Stop

  /** `Some(true)` writes the frame, `Some(false)` skips it; `None` skips
      it going forwards and ends the loop going backwards. */
  function Decide(included: Option<bool>, reversed: bool): (v: Verdict)
    ensures v == Write <==> included == Some(true)
    ensures v == Stop <==> included == None && reversed
  {
    match included
    case Some(true) => Write
    case Some(false) => Skip
    case None => if !reversed then Skip else Stop
  }

  /** The frame index `filter_frames` visits at step `k` of `n`. */
  function At(n: nat, k: nat, reversed: bool): (i: nat)
    requires k < n
    ensures i < n
  {
    if reversed then n - 1 - k else k
  }

  /** `sel` can be asked about every index below `n`. */
  predicate Askable(sel: FrameSelection, n: nat)
  {
    n <= U64_LIMIT && (sel.Range? ==> n + sel.range.start <= U64_LIMIT)
  }

  /** The frames written, in order, by the steps from `k` on. */
  function ChosenFrom(sel: FrameSelection, n: nat, k: nat, reversed: bool): (c: seq<nat>)
    requires Askable(sel, n) && k <= n
    ensures forall i :: 0 <= i < |c| ==> c[i] < n
    decreases n - k
  {
    if k == n then []
    else
      match Decide(FrameIncluded(sel, At(n, k, reversed)), reversed)
      case Stop => []
      case Skip => ChosenFrom(sel, n, k + 1, reversed)
      case Write => [At(n, k, reversed)] + ChosenFrom(sel, n, k + 1, reversed)
  }

  /** The frames written by the whole loop, in order. */
  function Chosen(sel: FrameSelection, n: nat, reversed: bool): seq<nat>
    requires Askable(sel, n)
  {
    ChosenFrom(sel, n, 0, reversed)
  }

  /** The number of frames among `written` that are compressed (more than
      nine atoms), each of which bumps the reader's step. */
  function CompressedCount(written: seq<nat>, natoms: seq<nat>): nat
    requires forall k :: 0 <= k < |written| ==> written[k] < |natoms|
  {
    if written == [] then 0
    else (if natoms[written[0]] > 9 then 1 else 0) + CompressedCount(written[1..], natoms)
  }

  lemma CompressedSnoc(written: seq<nat>, i: nat, natoms: seq<nat>)
    requires forall k :: 0 <= k < |written| ==> written[k] < |natoms|
    requires i < |natoms|
    ensures CompressedCount(written + [i], natoms)
         == CompressedCount(written, natoms) + (if natoms[i] > 9 then 1 else 0)
  {
    if written != [] {
      assert (written + [i])[1..] == written[1..] + [i];
      CompressedSnoc(written[1..], i, natoms);
    }
  }

  /** The frames `filter_frames` gets through when it works on the frames
      of `chosen` in turn and `outcomes[i]` is how frame `i` goes (its seek,
      the reads of its header and positions, and the writes or the printing
      of its header): those before the first frame that fails, and that
      failure. */
  function Attempt(chosen: seq<nat>, outcomes: seq<Result<()>>): (r: (seq<nat>, Result<()>))
    requires forall i :: 0 <= i < |chosen| ==> chosen[i] < |outcomes|
    ensures |r.0| <= |chosen|
  {
    if chosen == [] then ([], Ok(()))
    else if outcomes[chosen[0]].Err? then ([], outcomes[chosen[0]])
    else
      var (done, last) := Attempt(chosen[1..], outcomes);
      ([chosen[0]] + done, last)
  }

  /** The frames got through are a prefix of `chosen`, each of which goes
      through; all of `chosen` when none fails, and otherwise the failure
      is that of the frame after them. */
  lemma {:induction false} AttemptFirstFailure(chosen: seq<nat>, outcomes: seq<Result<()>>)
    requires forall i :: 0 <= i < |chosen| ==> chosen[i] < |outcomes|
    ensures var (done, last) := Attempt(chosen, outcomes);
      && done == chosen[..|done|]
      && (forall i :: 0 <= i < |done| ==> outcomes[done[i]].Ok?)
      && (last.Ok? <==> done == chosen)
      && (last.Err? ==> |done| < |chosen| && last == outcomes[chosen[|done|]])
    decreases |chosen|
  {
    if chosen != [] && outcomes[chosen[0]].Ok? {
      var rest := chosen[1..];
      AttemptFirstFailure(rest, outcomes);
      var done := Attempt(rest, outcomes).0;
      assert chosen == [chosen[0]] + rest;
      assert ([chosen[0]] + done)[1..] == done;
      if |done| < |rest| {
        assert chosen[..|done| + 1] == [chosen[0]] + rest[..|done|];
        assert chosen[|done| + 1] == rest[|done|];
      } else {
        assert rest[..|done|] == rest;
      }
    }
  }

  /** What the loop gets through from step `k` on, by what it does at
      step `k`: nothing when it stops or the frame fails, the rest when it
      skips the frame, the frame and then the rest when the frame goes
      through. */
  lemma AttemptFromStep(sel: FrameSelection, n: nat, k: nat, reversed: bool, outcomes: seq<Result<()>>)
    requires Askable(sel, n) && k < n && |outcomes| == n
    ensures var i := At(n, k, reversed);
      var v := Decide(FrameIncluded(sel, i), reversed);
      var here := Attempt(ChosenFrom(sel, n, k, reversed), outcomes);
      var next := Attempt(ChosenFrom(sel, n, k + 1, reversed), outcomes);
      && (v == Stop ==> here == ([], Ok(())))
      && (v == Skip ==> here == next)
      && (v == Write && outcomes[i].Err? ==> here == ([], outcomes[i]))
      && (v == Write && outcomes[i].Ok? ==> here == ([i] + next.0, next.1))
  {
    var i := At(n, k, reversed);
    var rest := ChosenFrom(sel, n, k + 1, reversed);
    assert ([i] + rest)[0] == i && ([i] + rest)[1..] == rest;
  }

  /** The loop at step `k` has written `written` and goes on as `Attempt`
      does over the rest of `Chosen`. */
  ghost predicate Resumes(sel: FrameSelection, n: nat, k: nat, reversed: bool, outcomes: seq<Result<()>>,
                          written: seq<nat>)
    requires Askable(sel, n) && k <= n && |outcomes| == n
  {
    var rest := Attempt(ChosenFrom(sel, n, k, reversed), outcomes);
    Attempt(Chosen(sel, n, reversed), outcomes) == (written + rest.0, rest.1)
  }

  /** The loop starts with nothing written, and once every frame is asked
      about, what it wrote is all that `Attempt` gets through. */
  lemma ResumesEnds(sel: FrameSelection, n: nat, reversed: bool, outcomes: seq<Result<()>>, written: seq<nat>)
    requires Askable(sel, n) && |outcomes| == n
    ensures Resumes(sel, n, 0, reversed, outcomes, [])
    ensures Resumes(sel, n, n, reversed, outcomes, written) ==>
      Attempt(Chosen(sel, n, reversed), outcomes) == (written, Ok(()))
  {
    assert [] + Attempt(Chosen(sel, n, reversed), outcomes).0 == Attempt(Chosen(sel, n, reversed), outcomes).0;
    assert written + [] == written;
  }

  /** One step of the loop keeps `Resumes`, or ends with the outcome of
      the whole loop. */
  lemma ResumesStep(sel: FrameSelection, n: nat, k: nat, reversed: bool, outcomes: seq<Result<()>>,
                    written: seq<nat>)
    requires Askable(sel, n) && k < n && |outcomes| == n
    requires Resumes(sel, n, k, reversed, outcomes, written)
    ensures var i := At(n, k, reversed);
      var v := Decide(FrameIncluded(sel, i), reversed);
      && (v == Stop ==> Attempt(Chosen(sel, n, reversed), outcomes) == (written, Ok(())))
      && (v == Skip ==> Resumes(sel, n, k + 1, reversed, outcomes, written))
      && (v == Write && outcomes[i].Err? ==> Attempt(Chosen(sel, n, reversed), outcomes) == (written, outcomes[i]))
      && (v == Write && outcomes[i].Ok? ==> Resumes(sel, n, k + 1, reversed, outcomes, written + [i]))
  {
    AttemptFromStep(sel, n, k, reversed, outcomes);
    var i := At(n, k, reversed);
    if Decide(FrameIncluded(sel, i), reversed) == Write && outcomes[i].Ok? {
      var next := Attempt(ChosenFrom(sel, n, k + 1, reversed), outcomes).0;
      assert written + ([i] + next) == (written + [i]) + next;
    } else {
      assert written + [] == written;
    }
  }

  /** The selection loop of `filter_frames` over the frame offsets, whose
      frames have `natoms` atoms each and go as `outcomes` says: it returns
      the frames written, in the order written, and the first error, which
      ends the loop. With `report` (`--times` or `--steps`) a chosen frame
      only has its header printed; otherwise each chosen frame with more
      than nine atoms bumps the reader's step. */
  method FilterFrames(reader: XtcReader, sel: FrameSelection, natoms: seq<nat>, outcomes: seq<Result<()>>,
                      reversed: bool, report: bool)
    returns (written: seq<nat>, r: Result<()>)
    requires Askable(sel, |natoms|) && |outcomes| == |natoms|
    modifies reader`step
    ensures (written, r) == Attempt(Chosen(sel, |natoms|, reversed), outcomes)
    ensures forall k :: 0 <= k < |written| ==> written[k] < |natoms|
    ensures reader.step == old(reader.step) + if report then 0 else CompressedCount(written, natoms)
  {
    var n := |natoms|;
    written := [];
    var k := 0;
    ResumesEnds(sel, n, reversed, outcomes, written);
    while k < n
      invariant 0 <= k <= n
      invariant forall j :: 0 <= j < |written| ==> written[j] < n
      invariant Resumes(sel, n, k, reversed, outcomes, written)
      invariant reader.step == old(reader.step) + if report then 0 else CompressedCount(written, natoms)
      decreases n - k
    {
      var done;
      done, written, r := FilterTurn(reader, sel, natoms, outcomes, reversed, report, k, written);
      if done {
        return;
      }
      k := k + 1;
    }
    ResumesEnds(sel, n, reversed, outcomes, written);
    r := Ok(());
  }

  /** One turn of the selection loop, at step `k`: it ends the loop when
      the frame stops it or is chosen and fails, and otherwise writes the
      frame if it is chosen, which bumps the step when the frame is
      compressed and nothing is reported. */
  method FilterTurn(reader: XtcReader, sel: FrameSelection, natoms: seq<nat>, outcomes: seq<Result<()>>,
                    reversed: bool, report: bool, k: nat, written: seq<nat>)
    returns (done: bool, written': seq<nat>, r: Result<()>)
    requires Askable(sel, |natoms|) && |outcomes| == |natoms| && k < |natoms|
    requires forall j :: 0 <= j < |written| ==> written[j] < |natoms|
    requires Resumes(sel, |natoms|, k, reversed, outcomes, written)
    modifies reader`step
    ensures done ==> written' == written && (written', r) == Attempt(Chosen(sel, |natoms|, reversed), outcomes)
    ensures !done ==> Resumes(sel, |natoms|, k + 1, reversed, outcomes, written')
    ensures written' == written || written' == written + [At(|natoms|, k, reversed)]
    ensures reader.step == old(reader.step)
      + if report then 0 else CompressedCount(written', natoms) - CompressedCount(written, natoms)
  {
    var n := |natoms|;
    var idx := if reversed then n - 1 - k else k;
    var v := Decide(FrameIncluded(sel, idx), reversed);
    ResumesStep(sel, n, k, reversed, outcomes, written);
    written' := written;
    if v == Stop {
      return true, written', Ok(());
    }
    if v == Write {
      if outcomes[idx].Err? {
        return true, written', outcomes[idx];
      }
      CompressedSnoc(written, idx, natoms);
      written' := written + [idx];
      if !report && natoms[idx] > 9 {
        reader.step := reader.step + 1;
      }
    }
    done, r := false, Ok(());
  }

  predicate Increasing(s: seq<nat>)
  {
    forall i, j :: 0 <= i < j < |s| ==> s[i] < s[j]
  }

  predicate Decreasing(s: seq<nat>)
  {
    forall i, j :: 0 <= i < j < |s| ==> s[i] > s[j]
  }

  /** Every frame written from step `k` on is included by the selection and
      is visited at step `k` or later; forwards the frames come out in
      increasing order, backwards in decreasing order. */
  lemma {:induction false} ChosenIncluded(sel: FrameSelection, n: nat, k: nat, reversed: bool)
    requires Askable(sel, n) && k <= n
    ensures var c := ChosenFrom(sel, n, k, reversed);
      && (forall x :: x in c ==> x < n && FrameIncluded(sel, x) == Some(true))
      && (forall x :: x in c ==> if reversed then x + k < n else k <= x)
      && (if reversed then Decreasing(c) else Increasing(c))
    decreases n - k
  {
    if k < n {
      ChosenIncluded(sel, n, k + 1, reversed);
      var c := ChosenFrom(sel, n, k + 1, reversed);
      var i := At(n, k, reversed);
      if reversed {
        ConsDecreasing(i, c);
      } else {
        ConsIncreasing(i, c);
      }
    }
  }

  lemma ConsIncreasing(x: nat, c: seq<nat>)
    requires Increasing(c) && forall y :: y in c ==> x < y
    ensures Increasing([x] + c)
  {
    var s := [x] + c;
    forall i, j | 0 <= i < j < |s|
      ensures s[i] < s[j]
    {
      assert s[j] == c[j - 1] && c[j - 1] in c;
      if i > 0 {
        assert s[i] == c[i - 1];
      }
    }
  }

  lemma ConsDecreasing(x: nat, c: seq<nat>)
    requires Decreasing(c) && forall y :: y in c ==> y < x
    ensures Decreasing([x] + c)
  {
    var s := [x] + c;
    forall i, j | 0 <= i < j < |s|
      ensures s[i] > s[j]
    {
      assert s[j] == c[j - 1] && c[j - 1] in c;
      if i > 0 {
        assert s[i] == c[i - 1];
      }
    }
  }

  /** Going forwards the loop never stops early: exactly the frames the
      selection includes are written. */
  lemma {:induction false} ForwardChosen(sel: FrameSelection, n: nat, k: nat)
    requires Askable(sel, n) && k <= n
    ensures forall x :: k <= x < n ==> (x in ChosenFrom(sel, n, k, false) <==> FrameIncluded(sel, x) == Some(true))
    decreases n - k
  {
    if k < n {
      ForwardChosen(sel, n, k + 1);
      ChosenIncluded(sel, n, k + 1, false);
    }
  }

  /** Going backwards the loop stops at the first frame beyond the
      selection: if that is the first frame visited, nothing is written. */
  lemma ReversedStopsAtFirst(sel: FrameSelection, n: nat)
    requires Askable(sel, n) && n > 0 && FrameIncluded(sel, n - 1) == None
    ensures Chosen(sel, n, true) == []
  {
  }

  /** Going backwards from a frame within the selection, every later frame
      is within it too, and exactly the frames the selection includes are
      written. */
  lemma {:induction false} ReversedChosen(sel: FrameSelection, n: nat, k: nat)
    requires Askable(sel, n) && k < n && FrameIncluded(sel, n - 1 - k) != None
    ensures forall x :: 0 <= x < n - k ==> (x in ChosenFrom(sel, n, k, true) <==> FrameIncluded(sel, x) == Some(true))
    decreases n - k
  {
    ChosenIncluded(sel, n, k + 1, true);
    if k + 1 < n {
      InScopeBelow(sel, n - 2 - k, n - 1 - k);
      ReversedChosen(sel, n, k + 1);
    }
  }

  /** When the first frame visited backwards is within the selection, the
      frames written backwards are exactly those the selection includes,
      in decreasing order. */
  lemma ReversedInScope(sel: FrameSelection, n: nat)
    requires Askable(sel, n) && n > 0 && FrameIncluded(sel, n - 1) != None
    ensures var c := Chosen(sel, n, true);
      && Decreasing(c)
      && forall i :: 0 <= i < n ==> (i in c <==> FrameIncluded(sel, i) == Some(true))
  {
    ReversedChosen(sel, n, 0);
    ChosenIncluded(sel, n, 0, true);
  }

  /** Going forwards the frames written are exactly those the selection
      includes, in increasing order. */
  lemma ForwardInScope(sel: FrameSelection, n: nat)
    requires Askable(sel, n)
    ensures var c := Chosen(sel, n, false);
      && Increasing(c)
      && forall i :: 0 <= i < n ==> (i in c <==> FrameIncluded(sel, i) == Some(true))
  {
    ForwardChosen(sel, n, 0);
    ChosenIncluded(sel, n, 0, false);
  }

  /** A frame before one within the selection is within it too. */
  lemma InScopeBelow(sel: FrameSelection, i: U64, j: U64)
    requires sel.Range? ==> j + sel.range.start < U64_LIMIT
    requires i <= j && FrameIncluded(sel, j) != None
    ensures FrameIncluded(sel, i) != None
  {
    if FrameIncluded(sel, i) == None {
      FrameNoneStays(sel, i, j);
      assert false;
    }
  }

  /** The header written for a frame: both atom counts set to the number
      of atoms selected, every other field kept. */
  function Rewrite(h: Header, natoms: nat): (h': Header)
    ensures h'.natoms == natoms && h'.natomsRepeated == natoms
    ensures h'.step == h.step && h'.time == h.time && h'.boxvec == h.boxvec
  {
    h.(natoms := natoms, natomsRepeated := natoms)
  }

  /** The bytes of a compressed block before its byte count: `minint`,
      `maxint` and `smallidx`. */
  const PRELUDE_SIZE: nat := 28

  /** The frame `filter_frames` writes after its header has been read:
      `body` is the input from the end of the header on, `natoms` the
      number of atoms selected, `positions` their float words and `nbytes`
      the number of compressed bytes those atoms take. For at most nine
      atoms the positions are written as floats; otherwise the precision
      and the prelude are copied, then the new byte count, the first
      `nbytes` bytes of the block and zero padding. The new count may not
      exceed the old one. */
  function WriteFrame(h: Header, natoms: nat, positions: seq<U32>, body: seq<Byte>, nbytes: nat)
    : (r: Result<seq<Byte>>)
    requires HeaderValid(h) && natoms < 0x8000_0000
    ensures r.Err? ==> natoms > 9
    ensures r.Err? ==> (r == Err(UnexpectedEof) <==>
      |body| < PRELUDE_END + 4 || (nbytes <= OldCount(body) && |body| < PRELUDE_END + 4 + nbytes))
  {
    var header := HeaderBytes(Rewrite(h, natoms));
    if natoms <= 9 then Ok(header + WordsToBytes(positions))
    else if |body| < PRELUDE_END + 4 then Err(UnexpectedEof)
    else if nbytes > OldCount(body) then Err(Panic("the new number of bytes must never be greater than the old number of bytes"))
    else if |body| < PRELUDE_END + 4 + nbytes then Err(UnexpectedEof)
    else Ok(header + CompressedTail(body, nbytes))
  }

  /** What follows the header of a compressed frame written: the
      precision and prelude copied, the new count, the first `nbytes`
      bytes of the old block and their padding. */
  function CompressedTail(body: seq<Byte>, nbytes: nat): seq<Byte>
    requires |body| >= PRELUDE_END + 4 + nbytes && nbytes < U32_LIMIT
  {
    body[..PRELUDE_END] + OpaqueBytes(body[PRELUDE_END + 4..PRELUDE_END + 4 + nbytes])
  }

  /** Where the byte count of a compressed block starts, after the
      precision and the prelude. */
  const PRELUDE_END: nat := 4 + PRELUDE_SIZE

  /** The byte count of the input's compressed block. */
  function OldCount(body: seq<Byte>): (n: nat)
    requires |body| >= PRELUDE_END + 4
    ensures n < U32_LIMIT
  {
    FromBeBytes(body[PRELUDE_END..PRELUDE_END + 4])
  }

  /** A small frame reads back as the rewritten header and the positions. */
  lemma WriteSmallFrameReadsBack(h: Header, natoms: nat, positions: seq<U32>, body: seq<Byte>, nbytes: nat)
    requires HeaderValid(h) && natoms <= 9
    ensures WriteFrame(h, natoms, positions, body, nbytes).Ok?
    ensures ReadFrameHeader(WriteFrame(h, natoms, positions, body, nbytes).value)
         == Ok((Rewrite(h, natoms), WordsToBytes(positions)))
  {
    ReadHeaderOfWritten(Rewrite(h, natoms), WordsToBytes(positions));
  }

  /** A compressed frame reads back as the rewritten header, followed by
      the precision and prelude of the input and a block holding the first
      `nbytes` bytes of the old block with their padding; that block takes
      no more room than the old one. */
  lemma WriteCompressedFrameReadsBack(h: Header, natoms: nat, positions: seq<U32>, body: seq<Byte>, nbytes: nat)
    requires HeaderValid(h) && 9 < natoms < 0x8000_0000
    requires WriteFrame(h, natoms, positions, body, nbytes).Ok?
    ensures |body| >= PRELUDE_END + 4 + nbytes && nbytes <= OldCount(body)
    ensures ReadFrameHeader(WriteFrame(h, natoms, positions, body, nbytes).value)
         == Ok((Rewrite(h, natoms), CompressedTail(body, nbytes)))
    ensures nbytes + Padding(nbytes) <= OldCount(body) + Padding(OldCount(body))
  {
    ReadHeaderOfWritten(Rewrite(h, natoms), CompressedTail(body, nbytes));
    ShrunkBlockFits(nbytes, OldCount(body));
  }

  /** The tail keeps the input's precision and prelude, and its block
      reads back as the first `nbytes` bytes of the old block, padded. */
  lemma CompressedTailReadsBack(body: seq<Byte>, nbytes: nat)
    requires |body| >= PRELUDE_END + 4 + nbytes && nbytes < U32_LIMIT
    ensures var tail := CompressedTail(body, nbytes);
      && tail[..PRELUDE_END] == body[..PRELUDE_END]
      && ReadOpaque(tail[PRELUDE_END..])
         == Ok((body[PRELUDE_END + 4..PRELUDE_END + 4 + nbytes] + Zeros(Padding(nbytes)), []))
  {
    CopiedBlock(body[..PRELUDE_END], body[PRELUDE_END + 4..PRELUDE_END + 4 + nbytes]);
  }

  lemma CopiedBlock(prelude: seq<Byte>, data: seq<Byte>)
    requires |data| < U32_LIMIT
    ensures var tail := prelude + OpaqueBytes(data);
      && tail[..|prelude|] == prelude
      && ReadOpaque(tail[|prelude|..]) == Ok((data + Zeros(Padding(|data|)), []))
  {
    var tail := prelude + OpaqueBytes(data);
    assert tail[|prelude|..] == OpaqueBytes(data) + [];
    ReadOpaqueOfWritten(data, []);
  }

  /** A block of no more bytes than another, padded, is no longer than the
      other padded. */
  lemma ShrunkBlockFits(n: nat, m: nat)
    requires n <= m
    ensures n + Padding(n) <= m + Padding(m)
  {
    var p := Padding(m);
    assert (m + p) % 4 == 0;
    PaddingLeast(n, m + p);
  }
}
