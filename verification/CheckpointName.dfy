/**
 * Names of checkpoints: the format a user may give, its expansion, and the names that one
 * run produces (config.cc, checkpointAction.cc).
 */
module CheckpointName {
  import opened Numerals

  // ------------------------------------------------ the validator

  predicate IsDirective(c: char) {
    c == 'p' || c == 'n' || c == 't'
  }

  /** Every '%' is followed by one of p, n and t. */
  predicate WellFormed(f: string) {
    if |f| == 0 then true
    else if f[0] == '%' then |f| > 1 && IsDirective(f[1]) && WellFormed(f[2..])
    else WellFormed(f[1..])
  }

  function Slashes(f: string): nat {
    if |f| == 0 then 0 else (if f[0] == '/' then 1 else 0) + Slashes(f[1..])
  }

  /** The formats that are accepted. */
  predicate Accepted(f: string) {
    f != "" && Slashes(f) <= 1 && WellFormed(f)
  }

  /** std::string::find for a character: the length of the text stands for npos. */
  function FindFrom(f: string, c: char, from: nat): (i: nat)
    requires from <= |f|
    ensures from <= i <= |f| && (i < |f| ==> f[i] == c) && forall j :: from <= j < i ==> f[j] != c
    decreases |f| - from
  {
    if from == |f| || f[from] == c then from else FindFrom(f, c, from + 1)
  }

  lemma {:induction false} SlashesFrom(f: string, from: nat)
    requires from <= |f|
    ensures var i := FindFrom(f, '/', from);
            Slashes(f[from..]) == if i < |f| then 1 + Slashes(f[i + 1..]) else 0
    decreases |f| - from
  {
    if from < |f| && f[from] != '/' {
      SlashesFrom(f, from + 1);
      assert f[from..][1..] == f[from + 1..];
    } else if from < |f| {
      assert f[from..][1..] == f[from + 1..];
    }
  }

  /** parse_checkpoint_name_format: whether the option is accepted; the variable is set unless the text is empty. */
  method ParseCheckpointNameFormat(before: string, arg: string) returns (ok: bool, value: string)
    ensures ok <==> Accepted(arg)
    ensures value == if arg == "" then before else arg
  {
    if arg == "" {
      return false, before;
    }
    value := arg;
    var count := 0;
    var index := FindFrom(arg, '/', 0);
    SlashesFrom(arg, 0);
    assert arg[0..] == arg;
    while index != |arg|
      invariant index <= |arg|
      invariant Slashes(arg) == count + if index < |arg| then 1 + Slashes(arg[index + 1..]) else 0
      decreases |arg| - index
    {
      count := count + 1;
      SlashesFrom(arg, index + 1);
      index := FindFrom(arg, '/', index + 1);
    }
    if count > 1 {
      return false, value;
    }
    var validFormat, percentFound := true, false;
    var i := 0;
    while i < |arg|
      invariant 0 <= i <= |arg|
      invariant validFormat
      invariant WellFormed(arg) == if percentFound then AfterPercent(arg[i..]) else WellFormed(arg[i..])
    {
      var x := arg[i];
      assert arg[i..][0] == x && arg[i..][1..] == arg[i + 1..];
      if percentFound {
        if x != 'p' && x != 'n' && x != 't' {
          validFormat := false;
          break;
        }
        percentFound := false;
      } else if x == '%' {
        AfterOne(arg[i..]);
        percentFound := true;
      }
      i := i + 1;
    }
    assert validFormat ==> arg[i..] == "";
    ok := validFormat && !percentFound;
  }

  /** What must follow a '%'. */
  predicate AfterPercent(f: string) {
    |f| > 0 && IsDirective(f[0]) && WellFormed(f[1..])
  }

  lemma AfterOne(f: string)
    requires |f| > 0 && f[0] == '%'
    ensures WellFormed(f) <==> AfterPercent(f[1..])
  {
    if |f| > 1 {
      assert f[1..][0] == f[1] && f[1..][1..] == f[2..];
    }
  }

  // ------------------------------------------------ the expansion

  /** What a directive stands for; one that the validator would refuse is deleted. */
  function Replacement(c: char, prefix: string, id: nat, time: nat): string {
    if c == 'p' then prefix else if c == 'n' then ToDecimal(id) else if c == 't' then ToDecimal(time) else ""
  }

  function Expand(f: string, prefix: string, id: nat, time: nat): string {
    if |f| == 0 then ""
    else if f[0] == '%' then
      if |f| == 1 then "" else Replacement(f[1], prefix, id, time) + Expand(f[2..], prefix, id, time)
    else [f[0]] + Expand(f[1..], prefix, id, time)
  }

  /** What the rest of the format gives, if it follows a '%' or if it does not. */
  function ExpandRest(rest: string, found: bool, prefix: string, id: nat, time: nat): string {
    if !found then Expand(rest, prefix, id, time)
    else if |rest| == 0 then ""
    else Replacement(rest[0], prefix, id, time) + Expand(rest[1..], prefix, id, time)
  }

  /** One character of the format: what it appends, and whether a '%' was found. */
  lemma ExpandStep(rest: string, found: bool, prefix: string, id: nat, time: nat)
    requires |rest| > 0
    ensures var (added, found') :=
              if found then (Replacement(rest[0], prefix, id, time), false)
              else if rest[0] == '%' then ("", true)
              else ([rest[0]], false);
            ExpandRest(rest, found, prefix, id, time) == added + ExpandRest(rest[1..], found', prefix, id, time)
  {
    if !found && rest[0] == '%' && |rest| > 1 {
      assert rest[1..][0] == rest[1] && rest[1..][1..] == rest[2..];
    }
  }

  lemma Regroup(a: string, b: string, c: string)
    ensures a + (b + c) == (a + b) + c
  {
  }

  /** createNameFromFormat. */
  method CreateNameFromFormat(format: string, prefix: string, id: nat, time: nat) returns (ret: string)
    ensures ret == Expand(format, prefix, id, time)
  {
    ret := "";
    var foundPercent := false;
    assert format[0..] == format;
    for i := 0 to |format|
      invariant ret + ExpandRest(format[i..], foundPercent, prefix, id, time) == Expand(format, prefix, id, time)
    {
      var x := format[i];
      ghost var before, rest, found := ret, format[i..], foundPercent;
      assert rest[0] == x && rest[1..] == format[i + 1..];
      ExpandStep(rest, found, prefix, id, time);
      if foundPercent {
        match x {
          case 'p' => ret := ret + prefix;
          case 'n' => ret := ret + ToDecimal(id);
          case 't' => ret := ret + ToDecimal(time);
          case _ =>
        }
        foundPercent := false;
      } else if x == '%' {
        foundPercent := true;
      } else {
        ret := ret + [x];
      }
      ghost var added := if found then Replacement(x, prefix, id, time) else if x == '%' then "" else [x];
      assert ret == before + added;
      Regroup(before, added, ExpandRest(rest[1..], foundPercent, prefix, id, time));
    }
    assert format[|format|..] == "";
  }

  /** The format uses a directive. */
  predicate Uses(f: string, c: char) {
    |f| > 0 && if f[0] == '%' then |f| > 1 && (f[1] == c || Uses(f[2..], c)) else Uses(f[1..], c)
  }

  /** The text "%c" occurs in the format: how the constructor decides whether to warn. */
  predicate Mentions(f: string, c: char) {
    exists i :: 0 <= i < |f| - 1 && f[i] == '%' && f[i + 1] == c
  }

  /** In an accepted format, a directive is used exactly if its text occurs. */
  lemma {:induction false} UsesIfMentioned(f: string, c: char)
    requires WellFormed(f) && IsDirective(c)
    ensures Uses(f, c) <==> Mentions(f, c)
    decreases |f|
  {
    if |f| > 0 {
      var step := if f[0] == '%' then 2 else 1;
      var rest := f[step..];
      UsesIfMentioned(rest, c);
      if Mentions(rest, c) {
        var i :| 0 <= i < |rest| - 1 && rest[i] == '%' && rest[i + 1] == c;
        assert f[i + step] == '%' && f[i + step + 1] == c;
      }
      if Mentions(f, c) {
        var i :| 0 <= i < |f| - 1 && f[i] == '%' && f[i + 1] == c;
        if i >= step { assert rest[i - step] == '%' && rest[i - step + 1] == c; }
      }
    }
  }

  // ------------------------------------------------ two checkpoints

  /** A later checkpoint never has a shorter name. */
  lemma {:induction false} ExpandMonotone(f: string, prefix: string, id: nat, time: nat, id': nat, time': nat)
    requires id <= id' && time <= time'
    ensures |Expand(f, prefix, id, time)| <= |Expand(f, prefix, id', time')|
    decreases |f|
  {
    if |f| > 0 {
      if f[0] != '%' {
        ExpandMonotone(f[1..], prefix, id, time, id', time');
      } else if |f| > 1 {
        ReplacementMonotone(f[1], prefix, id, time, id', time');
        ExpandMonotone(f[2..], prefix, id, time, id', time');
      }
    }
  }

  lemma ReplacementMonotone(c: char, prefix: string, id: nat, time: nat, id': nat, time': nat)
    requires id <= id' && time <= time'
    ensures |Replacement(c, prefix, id, time)| <= |Replacement(c, prefix, id', time')|
    ensures Replacement(c, prefix, id, time) == Replacement(c, prefix, id', time')
            <==> (c == 'n' ==> id == id') && (c == 't' ==> time == time')
  {
    ToDecimalMonotone(id, id');
    ToDecimalMonotone(time, time');
    if c == 'n' && ToDecimal(id) == ToDecimal(id') { ToDecimalInjective(id, id'); }
    if c == 't' && ToDecimal(time) == ToDecimal(time') { ToDecimalInjective(time, time'); }
  }

  /** Neither part of a text can shrink, so equal texts have equal parts. */
  lemma EqualParts(a: string, b: string, a': string, b': string)
    requires |a| <= |a'| && |b| <= |b'|
    ensures a + b == a' + b' <==> a == a' && b == b'
  {
    if a + b == a' + b' {
      assert |a + b| == |a' + b'|;
      assert a == (a + b)[..|a|] && b == (a + b)[|a|..];
      assert a' == (a' + b')[..|a'|] && b' == (a' + b')[|a'|..];
    }
  }

  /** The directives in f do not tell the two checkpoints apart. */
  predicate SameFor(f: string, id: nat, time: nat, id': nat, time': nat) {
    (Uses(f, 'n') ==> id == id') && (Uses(f, 't') ==> time == time')
  }

  /** Two expansions are equal exactly if no directive tells the checkpoints apart. */
  lemma {:induction false} ExpandEqual(f: string, prefix: string, id: nat, time: nat, id': nat, time': nat)
    requires id <= id' && time <= time'
    ensures Expand(f, prefix, id, time) == Expand(f, prefix, id', time') <==> SameFor(f, id, time, id', time')
    decreases |f|
  {
    if |f| > 0 {
      if f[0] != '%' {
        ExpandEqual(f[1..], prefix, id, time, id', time');
        ExpandMonotone(f[1..], prefix, id, time, id', time');
        EqualParts([f[0]], Expand(f[1..], prefix, id, time), [f[0]], Expand(f[1..], prefix, id', time'));
      } else if |f| > 1 {
        ExpandEqual(f[2..], prefix, id, time, id', time');
        ReplacementMonotone(f[1], prefix, id, time, id', time');
        ExpandMonotone(f[2..], prefix, id, time, id', time');
        EqualParts(Replacement(f[1], prefix, id, time), Expand(f[2..], prefix, id, time),
                   Replacement(f[1], prefix, id', time'), Expand(f[2..], prefix, id', time'));
      }
    }
  }

  // ------------------------------------------------ directory and file

  /** The format of the directory and that of the file: both the whole format if it has no slash. */
  function Split(format: string): (string, string) {
    var split := FindFrom(format, '/', 0);
    if split == |format| then (format, format) else (format[..split], format[split + 1..])
  }

  /** Cutting an accepted format at its slash cuts through no directive. */
  lemma {:induction false} SplitUses(a: string, b: string, c: char)
    requires WellFormed(a + "/" + b)
    ensures Uses(a + "/" + b, c) <==> Uses(a, c) || Uses(b, c)
    decreases |a|
  {
    var f := a + "/" + b;
    if |a| == 0 {
      assert f[1..] == b;
    } else if a[0] == '%' {
      assert |a| > 1;
      assert f[2..] == a[2..] + "/" + b;
      SplitUses(a[2..], b, c);
    } else {
      assert f[1..] == a[1..] + "/" + b;
      SplitUses(a[1..], b, c);
    }
  }

  lemma SplitSameFor(format: string, id: nat, time: nat, id': nat, time': nat)
    requires Accepted(format)
    ensures SameFor(format, id, time, id', time')
            <==> SameFor(Split(format).0, id, time, id', time') && SameFor(Split(format).1, id, time, id', time')
  {
    var split := FindFrom(format, '/', 0);
    if split < |format| {
      assert format == format[..split] + "/" + format[split + 1..];
      SplitUses(format[..split], format[split + 1..], 'n');
      SplitUses(format[..split], format[split + 1..], 't');
    }
  }

  /** The path of a file of a checkpoint: base directory, checkpoint directory, file name and its ending. */
  function Path(format: string, base: string, prefix: string, ending: string, id: nat, time: nat): string {
    var (dir, file) := Split(format);
    (base + "/" + Expand(dir, prefix, id, time)) + ("/" + (Expand(file, prefix, id, time) + ending))
  }

  /**
   * Two checkpoints of one run, the later one with the larger ID and no earlier time, share
   * their directory and their file name if and only if the format uses neither %n nor, at
   * different times, %t; and exactly then do they share the whole path of any file.
   */
  lemma NamesAreUnique(format: string, base: string, prefix: string, ending: string, id: nat, time: nat, id': nat,
                       time': nat)
    requires Accepted(format) && id < id' && time <= time'
    ensures var (dir, file) := Split(format);
            Expand(dir, prefix, id, time) == Expand(dir, prefix, id', time')
            && Expand(file, prefix, id, time) == Expand(file, prefix, id', time')
            <==> !Uses(format, 'n') && (Uses(format, 't') ==> time == time')
    ensures Path(format, base, prefix, ending, id, time) == Path(format, base, prefix, ending, id', time')
            <==> !Uses(format, 'n') && (Uses(format, 't') ==> time == time')
  {
    var (dir, file) := Split(format);
    ExpandEqual(dir, prefix, id, time, id', time');
    ExpandEqual(file, prefix, id, time, id', time');
    SplitSameFor(format, id, time, id', time');
    ExpandMonotone(dir, prefix, id, time, id', time');
    ExpandMonotone(file, prefix, id, time, id', time');
    PathParts(base, Expand(dir, prefix, id, time), Expand(file, prefix, id, time),
              Expand(dir, prefix, id', time'), Expand(file, prefix, id', time'), ending);
  }

  lemma PathParts(base: string, dir: string, file: string, dir': string, file': string, ending: string)
    requires |dir| <= |dir'| && |file| <= |file'|
    ensures (base + "/" + dir) + ("/" + (file + ending)) == (base + "/" + dir') + ("/" + (file' + ending))
            <==> dir == dir' && file == file'
  {
    var slash := "/";
    EqualParts(base + slash, dir, base + slash, dir');
    EqualParts(file, ending, file', ending);
    EqualParts(slash, file + ending, slash, file' + ending);
    EqualParts(base + slash + dir, slash + (file + ending), base + slash + dir', slash + (file' + ending));
  }

  // ------------------------------------------------ the checkpoints of a run

  /** The end of simulated time, which stands for no scheduled checkpoint. */
  const MAX_SIMTIME: nat := 0xFFFF_FFFF_FFFF_FFFF

  /** A checkpoint that was written. */
  datatype Written = Written(id: nat, time: nat, dir: string, file: string)

  /** CheckpointAction on thread 0 of rank 0. */
  class CheckpointAction {
    const period: nat
    const prefix: string
    const format: string
    var dirFormat: string
    var fileFormat: string
    var nextSimTime: nat
    var generate: bool
    var checkpointId: nat
    /** The checkpoints written so far. */
    ghost var written: seq<Written>
    /** Which multiple of the period comes next. */
    ghost var due: nat

    /**
     * Checkpoints are numbered from 1, in the order of their times, and named by the format. The
     * next one is due at a multiple of the period, if there is one.
     */
    ghost predicate Valid()
      reads this
    {
      && Accepted(format) && (dirFormat, fileFormat) == Split(format)
      && checkpointId == |written| + 1
      && nextSimTime == (if period == 0 then MAX_SIMTIME else due * period)
      && (forall i :: 0 <= i < |written| ==>
            written[i].id == i + 1
            && written[i].dir == Expand(dirFormat, prefix, written[i].id, written[i].time)
            && written[i].file == Expand(fileFormat, prefix, written[i].id, written[i].time))
      && forall i, j :: 0 <= i < j < |written| ==> written[i].time <= written[j].time
    }

    /** No checkpoint was written after this time. */
    ghost predicate UpTo(time: nat)
      reads this
    {
      forall i :: 0 <= i < |written| ==> written[i].time <= time
    }

    constructor (format: string, prefix: string, period: nat, now: nat)
      requires Accepted(format)
      ensures Valid() && this.format == format && this.prefix == prefix && this.period == period
      ensures written == [] && !generate
      ensures period != 0 ==> due == now / period + 1 && now < nextSimTime <= now + period
      ensures period == 0 ==> nextSimTime == MAX_SIMTIME
    {
      this.period, this.prefix, this.format := period, prefix, format;
      generate, checkpointId, written := false, 1, [];
      if period != 0 {
        NextMultiple(now, period);
        nextSimTime, due := period * (now / period) + period, now / period + 1;
      } else {
        nextSimTime := MAX_SIMTIME;
      }
      var split := FindFrom(format, '/', 0);
      if split == |format| {
        dirFormat, fileFormat := format, format;
      } else {
        dirFormat, fileFormat := format[..split], format[split + 1..];
      }
    }

    /** createCheckpoint: the names are made with the current ID, which then goes up. */
    method CreateCheckpoint(now: nat)
      requires Valid() && UpTo(now)
      modifies this`checkpointId, this`written
      ensures Valid() && UpTo(now) && checkpointId == old(checkpointId) + 1
      ensures |written| == |old(written)| + 1 && written[..|old(written)|] == old(written)
      ensures written[|old(written)|].time == now
    {
      var dir := CreateNameFromFormat(dirFormat, prefix, checkpointId, now);
      var file := CreateNameFromFormat(fileFormat, prefix, checkpointId, now);
      written := written + [Written(checkpointId, now, dir, file)];
      checkpointId := checkpointId + 1;
    }

    method SetCheckpoint()
      requires Valid()
      modifies this`generate
      ensures Valid() && generate
    {
      generate := true;
    }

    /** The period after a multiple of it comes the next multiple. */
    method AddPeriod()
      requires Valid()
      modifies this`nextSimTime, this`due
      ensures Valid() && nextSimTime == old(nextSimTime) + period && due == old(due) + 1
    {
      nextSimTime, due := nextSimTime + period, due + 1;
    }

    /** execute, in a serial run: a checkpoint at one multiple of the period, and the next at the next. */
    method Execute()
      requires Valid() && UpTo(nextSimTime)
      modifies this`checkpointId, this`written, this`nextSimTime, this`due
      ensures Valid() && UpTo(nextSimTime) && due == old(due) + 1
      ensures |written| == |old(written)| + 1 && written[..|old(written)|] == old(written)
      ensures written[|old(written)|].time == old(nextSimTime) && nextSimTime == old(nextSimTime) + period
      ensures period != 0 ==> old(nextSimTime) == old(due) * period && nextSimTime == due * period
    {
      CreateCheckpoint(nextSimTime);
      AddPeriod();
    }

    /** check, called by the SyncManager. */
    method Check(now: nat) returns (next: nat)
      requires Valid() && UpTo(now)
      modifies this`checkpointId, this`written, this`nextSimTime, this`generate, this`due
      ensures Valid() && UpTo(now) && next == nextSimTime
      ensures var due := old(nextSimTime) == now;
              && nextSimTime == (if due then old(nextSimTime) + period else old(nextSimTime))
              && (if due || old(generate)
                  then !generate && |written| == |old(written)| + 1 && written[|old(written)|].time == now
                  else written == old(written) && generate == old(generate))
      ensures |written| >= |old(written)| && written[..|old(written)|] == old(written)
    {
      if now == nextSimTime || generate {
        CreateCheckpoint(now);
        generate := false;
        if now == nextSimTime {
          AddPeriod();
        }
      }
      next := nextSimTime;
    }

    /** Over a whole run: two checkpoints share directory and file name only if the format cannot tell them apart. */
    lemma WrittenNamesDiffer(i: nat, j: nat)
      requires Valid() && i < j < |written|
      ensures (written[i].dir == written[j].dir && written[i].file == written[j].file)
              <==> !Uses(format, 'n') && (Uses(format, 't') ==> written[i].time == written[j].time)
    {
      NamesAreUnique(format, "", prefix, "", written[i].id, written[i].time, written[j].id, written[j].time);
    }
  }

  /** The multiple of the period right after a time. */
  lemma NextMultiple(now: nat, period: nat)
    requires period != 0
    ensures var next := period * (now / period) + period;
            next == (now / period + 1) * period && now < next <= now + period
  {
    var q := now / period;
    assert period * q + period == (q + 1) * period;
  }
}
