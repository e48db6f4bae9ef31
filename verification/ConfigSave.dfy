/** The save of src/config.c on a device that may fail at any call, with the write buffer of src/util.c. */
module ConfigSave {
  import opened Wrappers
  import opened Text
  import opened ConfigStore
  import opened ConfigFormat
  import opened ConfigFiles

  const BUFFER_SIZE: nat := 4096
  const MAX_RESTORE_BYTES: nat := 256 * 1024

  datatype Op =
    | Stat(found: bool)
    | OpenRead(ok: bool)
    | Size(n: int)
    | Memory(ok: bool)
    | Read(data: string)
    | CloseRead
    | Create(ok: bool)
    | Write(data: string, whole: bool)
    | Closed(ok: bool)

  /** How often a descriptor was asked for. */
  function Opens(log: seq<Op>): nat {
    if log == [] then 0
    else Opens(log[..|log| - 1]) + if log[|log| - 1].OpenRead? || log[|log| - 1].Create? then 1 else 0
  }

  /** The log ends with a restore of `original` that the device refused or broke off. */
  predicate RestoreFailed(log: seq<Op>, original: string) {
    || (1 <= |log| && log[|log| - 1] == Create(false))
    || (3 <= |log| && log[|log| - 3] == Create(true) && log[|log| - 2].Write? && log[|log| - 2].data == original
        && log[|log| - 1].Closed? && (!log[|log| - 2].whole || !log[|log| - 1].ok))
  }

  /** A step of writing that the device refused or broke off. */
  predicate Bad(op: Op) {
    op == Create(false) || (op.Write? && !op.whole) || op == Closed(false)
  }

  ghost predicate HasBad(ops: seq<Op>) {
    exists op :: op in ops && Bad(op)
  }

  lemma BadStays(ops: seq<Op>, more: seq<Op>)
    ensures HasBad(ops) || HasBad(more) ==> HasBad(ops + more)
  {
    if HasBad(ops) {
      var op :| op in ops && Bad(op);
      assert op in ops + more;
    }
    if HasBad(more) {
      var op :| op in more && Bad(op);
      assert op in ops + more;
    }
  }

  /** Why there can be nothing to roll back to: the file cannot be opened, is empty or too large or of unknown
      size, there is no memory, or the read comes up short. */
  ghost predicate NoSnapshot(ops: seq<Op>) {
    || OpenRead(false) in ops || Memory(false) in ops
    || (exists n :: Size(n) in ops && !(0 < n <= 256 * 1024))
    || (exists n, data :: Size(n) in ops && Read(data) in ops && |data| < n)
  }

  /** Why reading a file back may prove nothing. */
  ghost predicate Doubtful(ops: seq<Op>, intended: string) {
    || OpenRead(false) in ops || Memory(false) in ops
    || (exists n :: Size(n) in ops && n != |intended|)
    || (exists data :: Read(data) in ops && data != intended)
  }

  /** One file on a device whose calls may fail at any time. What succeeds can be relied on; a failed
      call on a file that is open for writing can leave anything at all behind. */
  class Device {
    var file: Option<string>
    var log: seq<Op>

    method GetStat() returns (found: bool)
      modifies this
      ensures file == old(file) && log == old(log) + [Stat(found)]
      ensures Opens(log) == Opens(old(log))
    {
      found := *;
      log := log + [Stat(found)];
    }

    method OpenToRead() returns (ok: bool)
      modifies this
      ensures ok ==> file.Some?
      ensures file == old(file) && log == old(log) + [OpenRead(ok)]
      ensures Opens(log) == Opens(old(log)) + 1
    {
      ok := *;
      ok := ok && file.Some?;
      log := log + [OpenRead(ok)];
    }

    /** A negative size is a failed seek. */
    method GetSize() returns (n: int)
      requires file.Some?
      modifies this
      ensures file == old(file) && log == old(log) + [Size(n)]
      ensures n >= 0 ==> n == |file.value|
      ensures Opens(log) == Opens(old(log))
    {
      var ok: bool := *;
      n := if ok then |file.value| else -1;
      log := log + [Size(n)];
    }

    /** malloc; it is no call of the device, but it is remembered with them. */
    method Allocate() returns (ok: bool)
      modifies this
      ensures file == old(file) && log == old(log) + [Memory(ok)]
      ensures Opens(log) == Opens(old(log))
    {
      ok := *;
      log := log + [Memory(ok)];
    }

    /** A read may come up short; a failed one delivers nothing. */
    method ReadUpTo(max: nat) returns (data: string)
      requires file.Some?
      modifies this
      ensures file == old(file) && log == old(log) + [Read(data)]
      ensures |data| <= max && |data| <= |file.value| && data == file.value[..|data|]
      ensures |data| == |file.value| ==> data == file.value
      ensures Opens(log) == Opens(old(log))
    {
      var n: int := *;
      data := Text.Truncate(file.value, 1 + if 0 <= n < max then n else max);
      log := log + [Read(data)];
    }

    method CloseAfterRead()
      modifies this
      ensures file == old(file) && log == old(log) + [CloseRead]
      ensures Opens(log) == Opens(old(log))
    {
      log := log + [CloseRead];
    }

    /** Open for writing, creating or emptying the file. */
    method Empty() returns (ok: bool)
      modifies this
      ensures ok ==> file == Some("")
      ensures log == old(log) + [Create(ok)]
      ensures Opens(log) == Opens(old(log)) + 1
    {
      ok, file := *, *;
      if ok { file := Some(""); }
      log := log + [Create(ok)];
    }

    method Append(data: string) returns (whole: bool)
      modifies this
      ensures whole && old(file).Some? ==> file == Some(old(file).value + data)
      ensures log == old(log) + [Write(data, whole)]
      ensures Opens(log) == Opens(old(log))
    {
      whole := *;
      if whole && file.Some? { file := Some(file.value + data); } else { file := *; }
      log := log + [Write(data, whole)];
    }

    method CloseAfterWrite() returns (ok: bool)
      modifies this
      ensures ok ==> file == old(file)
      ensures log == old(log) + [Closed(ok)]
      ensures Opens(log) == Opens(old(log))
    {
      ok := *;
      if !ok { file := *; }
      log := log + [Closed(ok)];
    }
  }

  /** file_buffer_t, opened for writing. */
  class WriteBuffer {
    const device: Device
    var buffer: string
    var writeError: bool
    var totalQueued: nat
    ghost var flushed: string    // everything handed to the device so far
    ghost const before: seq<Op>  // what was logged before that
    ghost var ops: seq<Op>       // and since

    ghost predicate Valid()
      reads this, device
    {
      && |buffer| <= BUFFER_SIZE && totalQueued == |flushed| + |buffer|
      && (!writeError ==> device.file == Some(flushed))
      && device.log == before + ops && (writeError ==> HasBad(ops))
    }

    /** Everything that has been queued. */
    ghost function Queued(): string
      reads this
    {
      flushed + buffer
    }

    /** Nothing is handed over before the buffer has been too small. */
    ghost predicate HeldBack()
      reads this
    {
      |Queued()| <= BUFFER_SIZE ==> flushed == ""
    }

    constructor (d: Device)
      requires d.file == Some("")
      ensures Valid() && HeldBack() && device == d && Queued() == "" && before == d.log && ops == []
    {
      device, buffer, writeError, totalQueued, flushed := d, "", false, 0, "";
      before, ops := d.log, [];
    }

    /** One write of the device. */
    method HandOver(data: string)
      requires device.log == before + ops && (writeError ==> HasBad(ops)) && (!writeError ==> device.file == Some(flushed))
      modifies this`writeError, this`flushed, this`ops, device
      ensures flushed == old(flushed) + data && old(ops) <= ops
      ensures device.log == before + ops && (writeError ==> HasBad(ops)) && (!writeError ==> device.file == Some(flushed))
      ensures Opens(device.log) == Opens(old(device.log))
    {
      var whole := device.Append(data);
      if !whole {
        writeError := true;
        assert Bad(Write(data, false)) && Write(data, false) in [Write(data, false)];
      }
      BadStays(ops, [Write(data, whole)]);
      Assoc(before, ops, [Write(data, whole)]);
      ops := ops + [Write(data, whole)];
      flushed := flushed + data;
    }

    method Flush()
      requires Valid()
      modifies this, device
      ensures Valid() && buffer == "" && Queued() == old(Queued()) && totalQueued == old(totalQueued)
      ensures old(ops) <= ops && Opens(device.log) == Opens(old(device.log))
    {
      HandOver(buffer);
      buffer := "";
      Nil(flushed);
    }

    /** writeFileBuffer */
    method Put(data: string)
      requires Valid() && HeldBack()
      modifies this, device
      ensures Valid() && HeldBack() && Queued() == old(Queued()) + data
      ensures old(ops) <= ops && Opens(device.log) == Opens(old(device.log))
    {
      if buffer != "" && |buffer| + |data| > BUFFER_SIZE { Flush(); }
      totalQueued := totalQueued + |data|;
      if |data| > BUFFER_SIZE {
        Nil(flushed);
        HandOver(data);
        Nil(flushed);
      } else {
        Assoc(flushed, buffer, data);
        buffer := buffer + data;
      }
    }

    /** What the buffer alone holds, when that is everything and there is memory for a copy. */
    method Captured() returns (r: Option<string>)
      requires Valid() && HeldBack()
      modifies this`ops, device
      ensures Valid() && device.file == old(device.file) && old(ops) <= ops
      ensures r == if Queued() == "" || |Queued()| > BUFFER_SIZE || Memory(false) in ops[|old(ops)|..] then None else Some(Queued())
      ensures Opens(device.log) == Opens(old(device.log))
    {
      r := None;
      Nil(buffer);
      if buffer != "" && totalQueued == |buffer| {
        var memory := device.Allocate();
        BadStays(ops, [Memory(memory)]);
        Assoc(before, ops, [Memory(memory)]);
        ops := ops + [Memory(memory)];
        if memory { r := Some(buffer); }
      }
    }

    /** closeFileBuffer */
    method CloseBuffer() returns (ok: bool)
      requires Valid()
      modifies this`writeError, this`flushed, this`ops, device
      ensures ok ==> device.file == Some(old(Queued()))
      ensures device.log == before + ops && old(ops) <= ops && (!ok ==> HasBad(ops))
      ensures Opens(device.log) == Opens(old(device.log))
    {
      Nil(flushed);
      if buffer != "" { HandOver(buffer); }
      var closed := device.CloseAfterWrite();
      if !closed { assert Bad(Closed(false)) && Closed(false) in [Closed(false)]; }
      BadStays(ops, [Closed(closed)]);
      Assoc(before, ops, [Closed(closed)]);
      ops := ops + [Closed(closed)];
      ok := closed && !writeError;
    }
  }

  /** configPathIsRawApa: hddN: is the partition table, where creating a file creates a partition. */
  predicate IsRawApa(path: string) {
    StartsWith(path, "hdd") && |path| > 4 && '0' <= path[3] <= '9' && path[4] == ':'
  }

  predicate OnMemoryCard(path: string) {
    StartsWith(path, "mc")
  }

  /** Which paths those are, character by character. */
  lemma SpecialPaths(path: string)
    ensures IsRawApa(path) <==>
            |path| >= 5 && path[0] == 'h' && path[1] == 'd' && path[2] == 'd' && path[3] in "0123456789" && path[4] == ':'
    ensures OnMemoryCard(path) <==> |path| >= 2 && path[0] == 'm' && path[1] == 'c'
  {
    if |path| >= 3 && path[0] == 'h' && path[1] == 'd' && path[2] == 'd' { assert path[..3] == "hdd"; }
    if StartsWith(path, "hdd") { assert path[..3][0] == 'h' && path[..3][1] == 'd' && path[..3][2] == 'd'; }
    if |path| >= 2 && path[0] == 'm' && path[1] == 'c' { assert path[..2] == "mc"; }
    if StartsWith(path, "mc") { assert path[..2][0] == 'm' && path[..2][1] == 'c'; }
    if |path| >= 5 { DigitIff(path[3]); }
  }

  lemma DigitIff(c: char)
    ensures '0' <= c <= '9' <==> c in "0123456789"
  {
    if '0' <= c <= '9' { assert "0123456789"[c as int - '0' as int] == c; }
  }

  /** Queue a text line by line, as the format writers do. */
  method PutLines(fb: WriteBuffer, text: string)
    requires fb.Valid() && fb.HeldBack()
    modifies fb, fb.device
    ensures fb.Valid() && fb.HeldBack() && fb.Queued() == old(fb.Queued()) + text
    ensures old(fb.ops) <= fb.ops && Opens(fb.device.log) == Opens(old(fb.device.log))
  {
    var at := 0;
    Nil(fb.Queued());
    while at < |text|
      invariant at <= |text| && fb.Valid() && fb.HeldBack() && fb.Queued() == old(fb.Queued()) + text[..at]
      invariant old(fb.ops) <= fb.ops && Opens(fb.device.log) == Opens(old(fb.device.log))
    {
      var end := FindFrom(text, '\n', at);
      var next := if end < |text| then end + 1 else end;
      fb.Put(text[at..next]);
      Assoc(old(fb.Queued()), text[..at], text[at..next]);
      assert text[..at] + text[at..next] == text[..next];
      at := next;
    }
    assert text[..at] == text;
  }

  /** The four ways reading a whole file can go. */
  datatype Attempt = Refused | Measured(n: int) | Unheld(n: int) | Seen(n: int, data: string)

  function StepsOf(a: Attempt): seq<Op> {
    match a
    case Refused => [OpenRead(false)]
    case Measured(n) => [OpenRead(true), Size(n), CloseRead]
    case Unheld(n) => [OpenRead(true), Size(n), Memory(false), CloseRead]
    case Seen(n, data) => [OpenRead(true), Size(n), Memory(true), Read(data), CloseRead]
  }

  /** The log after the calls of an attempt, one by one. */
  function Logged(log: seq<Op>, a: Attempt): seq<Op> {
    match a
    case Refused => log + [OpenRead(false)]
    case Measured(n) => log + [OpenRead(true)] + [Size(n)] + [CloseRead]
    case Unheld(n) => log + [OpenRead(true)] + [Size(n)] + [Memory(false)] + [CloseRead]
    case Seen(n, data) => log + [OpenRead(true)] + [Size(n)] + [Memory(true)] + [Read(data)] + [CloseRead]
  }

  lemma LoggedIs(log: seq<Op>, a: Attempt)
    ensures Logged(log, a) == log + StepsOf(a)
  {
  }

  lemma OpsOf(a: Attempt, op: Op)
    ensures op in StepsOf(a) <==> OpIn(a, op)
  {
  }

  lemma NoSnapshotIff(a: Attempt)
    ensures NoSnapshot(StepsOf(a)) <==>
            match a
            case Refused => true
            case Measured(n) => !(0 < n <= 256 * 1024)
            case Unheld(n) => true
            case Seen(n, data) => !(0 < n <= 256 * 1024) || |data| < n
  {
    forall op ensures op in StepsOf(a) <==> OpIn(a, op) { OpsOf(a, op); }
    match a
    case Refused =>
    case Measured(n) => assert OpIn(a, Size(n));
    case Unheld(n) => assert OpIn(a, Memory(false));
    case Seen(n, data) => assert OpIn(a, Size(n)) && OpIn(a, Read(data));
  }

  lemma DoubtfulIff(a: Attempt, intended: string)
    ensures Doubtful(StepsOf(a), intended) <==>
            match a
            case Refused => true
            case Measured(n) => n != |intended|
            case Unheld(n) => true
            case Seen(n, data) => n != |intended| || data != intended
  {
    forall op ensures op in StepsOf(a) <==> OpIn(a, op) { OpsOf(a, op); }
    match a
    case Refused =>
    case Measured(n) => assert OpIn(a, Size(n));
    case Unheld(n) => assert OpIn(a, Memory(false));
    case Seen(n, data) => assert OpIn(a, Size(n)) && OpIn(a, Read(data));
  }

  predicate OpIn(a: Attempt, op: Op) {
    match a
    case Refused => op == OpenRead(false)
    case Measured(n) => op == OpenRead(true) || op == Size(n) || op == CloseRead
    case Unheld(n) => op == OpenRead(true) || op == Size(n) || op == Memory(false) || op == CloseRead
    case Seen(n, data) => op == OpenRead(true) || op == Size(n) || op == Memory(true) || op == Read(data) || op == CloseRead
  }

  method AttemptSnapshot(device: Device) returns (original: Option<string>, ghost a: Attempt)
    modifies device
    ensures device.file == old(device.file) && device.log == Logged(old(device.log), a)
    ensures original == if a.Seen? && |a.data| == a.n then device.file else None
    ensures a.Seen? && |a.data| == a.n ==> device.file == Some(a.data)
    ensures a.Seen? ==> |a.data| <= a.n
    ensures !a.Refused? ==> (a.Measured? <==> !(0 < a.n <= MAX_RESTORE_BYTES))
  {
    original, a := None, Refused;
    var readable := device.OpenToRead();
    if readable {
      var sz := device.GetSize();
      a := Measured(sz);
      if 0 < sz <= MAX_RESTORE_BYTES {
        var memory := device.Allocate();
        a := Unheld(sz);
        if memory {
          var data := device.ReadUpTo(sz);
          a := Seen(sz, data);
          if |data| == sz { original := Some(data); }
        }
      }
      device.CloseAfterRead();
    }
  }

  /** The bytes to roll back to: a file of 1 to MAX_RESTORE_BYTES bytes, read in full, if there is memory. There
      are none only for one of those reasons. */
  method Snapshot(device: Device) returns (original: Option<string>, ghost steps: seq<Op>)
    modifies device
    ensures device.file == old(device.file) && device.log == old(device.log) + steps
    ensures original.None? <==> NoSnapshot(steps)
    ensures original.Some? ==> 0 < |original.value| && original == device.file
  {
    ghost var was := device.log;
    ghost var a;
    original, a := AttemptSnapshot(device);
    steps := StepsOf(a);
    LoggedIs(was, a);
    NoSnapshotIff(a);
  }

  method AttemptReadBack(device: Device, intended: string) returns (same: bool, ghost a: Attempt)
    modifies device
    ensures device.file == old(device.file) && device.log == Logged(old(device.log), a)
    ensures same == (a.Seen? && a.data == intended)
    ensures same ==> device.file == Some(intended)
    ensures !a.Refused? ==> (a.Measured? <==> a.n != |intended|)
  {
    same, a := false, Refused;
    var readable := device.OpenToRead();
    if readable {
      var sz := device.GetSize();
      a := Measured(sz);
      if sz == |intended| {
        var memory := device.Allocate();
        a := Unheld(sz);
        if memory {
          var data := device.ReadUpTo(sz);
          a := Seen(sz, data);
          same := data == intended;
        }
      }
      device.CloseAfterRead();
    }
  }

  /** Evidence over status codes: does the file hold exactly what was meant to be written? It says no only for
      one of the reasons to doubt. */
  method ReadBack(device: Device, intended: string) returns (same: bool, ghost steps: seq<Op>)
    modifies device
    ensures device.file == old(device.file) && device.log == old(device.log) + steps
    ensures !same <==> Doubtful(steps, intended)
    ensures same ==> device.file == Some(intended)
  {
    ghost var was := device.log;
    ghost var a;
    same, a := AttemptReadBack(device, intended);
    steps := StepsOf(a);
    LoggedIs(was, a);
    DoubtfulIff(a, intended);
  }

  /** The file was seen to be no shorter than what was there before. */
  ghost predicate Undamaged(ops: seq<Op>, original: string) {
    exists n :: Size(n) in ops && n >= |original|
  }

  lemma UndamagedIff(a: Attempt, original: string)
    requires a.Refused? || a.Measured?
    ensures Undamaged(StepsOf(a), original) <==> a.Measured? && a.n >= |original|
    ensures forall op :: op in StepsOf(a) ==> !op.Create? && !op.Write?
  {
    forall op ensures op in StepsOf(a) <==> OpIn(a, op) { OpsOf(a, op); }
    if a.Measured? { assert OpIn(a, Size(a.n)); }
  }

  lemma StillDamaged(steps: seq<Op>, more: seq<Op>, original: string)
    requires !Undamaged(steps, original) && forall op :: op in more ==> !op.Size?
    ensures !Undamaged(steps + more, original)
  {
  }

  method Rewrite(device: Device, original: string) returns (ghost steps: seq<Op>)
    modifies device
    ensures device.log == old(device.log) + steps && (forall op :: op in steps ==> !op.Size?)
    ensures device.file == Some(original) || RestoreFailed(device.log, original)
  {
    ghost var was := device.log;
    var created := device.Empty();
    steps := [Create(created)];
    if created {
      var whole := device.Append(original);
      var closed := device.CloseAfterWrite();
      steps := [Create(created), Write(original, whole), Closed(closed)];
      assert device.log == was + steps;
      Nil(original);
    }
  }

  /** Put the original back, but only when the file is not seen to be as long. */
  method Restore(device: Device, original: string) returns (ghost steps: seq<Op>)
    requires original != ""
    modifies device
    ensures device.log == old(device.log) + steps
    ensures Undamaged(steps, original) ==>
              device.file == old(device.file) && device.file.Some? && |device.file.value| >= |original| &&
              forall op :: op in steps ==> !op.Create? && !op.Write?
    ensures !Undamaged(steps, original) ==> device.file == Some(original) || RestoreFailed(device.log, original)
  {
    ghost var was := device.log;
    var length := 0;
    ghost var a := Refused;
    var readable := device.OpenToRead();
    if readable {
      length := device.GetSize();
      a := Measured(length);
      device.CloseAfterRead();
    }
    LoggedIs(was, a);
    UndamagedIff(a, original);
    steps := StepsOf(a);
    if length < |original| {
      ghost var more := Rewrite(device, original);
      StillDamaged(steps, more, original);
      Assoc(was, steps, more);
      steps := steps + more;
    }
  }

  /** No proof that a broken save is on the device after all: it is too long for the buffer or empty, there is no
      memory, the device has one descriptor or a cache of its own, or reading it back leaves doubts. */
  ghost predicate Unproven(check: seq<Op>, path: string, text: string) {
    || text == "" || |text| > 4096 || OnMemoryCard(path) || StartsWith(path, "pfs")
    || Memory(false) in check || Doubtful(check, text)
  }

  lemma DoubtStays(front: seq<Op>, check: seq<Op>, path: string, text: string)
    requires Unproven(check, path, text)
    ensures Unproven(front + check, path, text)
  {
    if exists n :: Size(n) in check && n != |text| {
      var n :| Size(n) in check && n != |text|;
      assert Size(n) in front + check;
    }
    if exists data :: Read(data) in check && data != text {
      var data :| Read(data) in check && data != text;
      assert Read(data) in front + check;
    }
  }

  /** Queue the text of the set and close; what was captured in between. */
  method WriteText(config: ConfigSet, device: Device)
      returns (ok: bool, intended: Option<string>, ghost ops: seq<Op>)
    requires config.Valid() && device.file == Some("")
    modifies device
    ensures device.log == old(device.log) + ops && Opens(device.log) == Opens(old(device.log))
    ensures ok ==> device.file == Some(SaveText(config.format, config.entries))
    ensures !ok ==> HasBad(ops)
    ensures var text := SaveText(config.format, config.entries);
            (intended == None && (text == "" || |text| > BUFFER_SIZE || Memory(false) in ops)) || intended == Some(text)
  {
    var text;
    if config.format == Libconfig {
      text := WriteLibconfig(config);
    } else {
      text := WriteLegacy(config);
    }
    var fb := new WriteBuffer(device);
    PutLines(fb, text);
    Nil(text);
    intended := fb.Captured();
    ok := fb.CloseBuffer();
    ops := fb.ops;
  }

  /** Write the set to the emptied file; true when it is known to be there, and false only for a reason. */
  method WriteOut(config: ConfigSet, device: Device, path: string) returns (ok: bool, ghost steps: seq<Op>)
    requires config.Valid()
    modifies device
    ensures device.log == old(device.log) + steps
    ensures ok ==> device.file == Some(SaveText(config.format, config.entries))
    ensures !ok ==> HasBad(steps)
    ensures !ok && Create(false) !in steps ==> Unproven(steps, path, SaveText(config.format, config.entries))
    ensures OnMemoryCard(path) ==> Opens(device.log) == Opens(old(device.log)) + 1
  {
    var created := device.Empty();
    steps := [Create(created)];
    if !created {
      assert Bad(Create(false)) && Create(false) in steps;
      return false, steps;
    }
    ghost var ops, text := [], SaveText(config.format, config.entries);
    var intended;
    ok, intended, ops := WriteText(config, device);
    BadStays(steps, ops);
    Assoc(old(device.log), steps, ops);
    steps := steps + ops;
    if !ok && intended.Some? && !OnMemoryCard(path) && !StartsWith(path, "pfs") {
      ghost var check;
      ok, check := ReadBack(device, intended.value);
      BadStays(steps, check);
      Assoc(old(device.log), steps, check);
      if !ok { DoubtStays(steps, check, path, text); }
      steps := steps + check;
    }
  }

  /** What a failed save leaves behind when there was a snapshot. */
  ghost predicate NotShortened(file: Option<string>, log: seq<Op>, original: string) {
    (file.Some? && |file.value| >= |original|) || RestoreFailed(log, original)
  }

  method ClearModified(config: ConfigSet)
    requires config.Valid()
    modifies config`modified
    ensures config.Valid() && !config.modified
  {
    config.modified := false;
  }

  /** configWrite on a set that has changes, with a path that may be written. The ghost results are what was done
      for the snapshot and to write. */
  method SaveModified(config: ConfigSet, device: Device, path: string)
      returns (saved: bool, ghost before: seq<Op>, ghost steps: seq<Op>)
    requires config.Valid() && config.modified && device !in config.repr
    modifies config`modified, device
    ensures config.Valid() && config.modified == !saved
    ensures old(device.log) + before + steps <= device.log
    ensures saved ==> device.file == Some(SaveText(config.format, config.entries))
    ensures !saved ==> HasBad(steps)
    ensures !saved && Create(false) !in steps ==> Unproven(steps, path, SaveText(config.format, config.entries))
    ensures !saved && old(device.file).Some? && !OnMemoryCard(path) ==>
              NotShortened(device.file, device.log, old(device.file).value) || NoSnapshot(before)
    ensures OnMemoryCard(path) ==> before == [] && Opens(device.log) == Opens(old(device.log)) + 1
  {
    var snapshot := None;
    before := [];
    Nil(device.log);
    if !OnMemoryCard(path) { snapshot, before := Snapshot(device); }
    saved, steps := WriteOut(config, device, path);
    if saved {
      ClearModified(config);
    } else if snapshot.Some? {
      ghost var more := Restore(device, snapshot.value);
    }
  }

  function Asked(found: Option<bool>): seq<Op> {
    if found.Some? then [Stat(found.value)] else []
  }

  /** A clean set that has a file and pairs is written after all when its file looks absent. */
  method Ask(config: ConfigSet, device: Device, filename: Option<string>) returns (found: Option<bool>)
    requires config.Valid() && device !in config.repr
    modifies config`modified, device
    ensures config.Valid() && device.file == old(device.file)
    ensures device.log == old(device.log) + Asked(found) && Opens(device.log) == Opens(old(device.log))
    ensures found.Some? <==> !old(config.modified) && filename.Some? && config.entries != []
    ensures config.modified == (old(config.modified) || found == Some(false))
  {
    found := None;
    Nil(device.log);
    if !config.modified && filename.Some? && config.head != null {
      var there := device.GetStat();
      found := Some(there);
      if !there { config.modified := true; }
    }
  }

  /** configWrite. `found` is what the device said of a clean set's file, `before` what was done for the snapshot,
      and `steps` to write. */
  method Save(config: ConfigSet, device: Device, filename: Option<string>)
      returns (saved: bool, found: Option<bool>, ghost before: seq<Op>, ghost steps: seq<Op>)
    requires config.Valid() && device !in config.repr
    modifies config`modified, device
    ensures config.Valid() && config.modified == !saved
    ensures old(device.log) + Asked(found) + before + steps <= device.log
    // a clean set is written only when its file looks absent
    ensures found.Some? <==> !old(config.modified) && filename.Some? && config.entries != []
    ensures !old(config.modified) && found != Some(false) ==>
              saved && device.file == old(device.file) && Opens(device.log) == Opens(old(device.log))
    // in every other case success means that the whole text is on the device
    ensures saved && (old(config.modified) || found == Some(false)) ==>
              device.file == Some(SaveText(config.format, config.entries))
    // and failure means that a step of writing failed and that nothing proves the text to be there all the same
    ensures !saved && filename.Some? && !IsRawApa(filename.value) ==> HasBad(steps)
    ensures !saved && filename.Some? && !IsRawApa(filename.value) && Create(false) !in steps ==>
              Unproven(steps, filename.value, SaveText(config.format, config.entries))
    // failure never leaves less than there was, unless there could be no snapshot or the restore failed too
    ensures !saved && old(device.file).Some? && (filename.Some? ==> !OnMemoryCard(filename.value)) ==>
              NotShortened(device.file, device.log, old(device.file).value) || NoSnapshot(before)
    // no file, or the raw partition table: nothing is opened
    ensures filename == None || IsRawApa(filename.value) ==>
              device.file == old(device.file) && Opens(device.log) == Opens(old(device.log))
    // a memory card gives out one descriptor at most
    ensures filename.Some? && OnMemoryCard(filename.value) ==> Opens(device.log) <= Opens(old(device.log)) + 1
  {
    before, steps := [], [];
    found := Ask(config, device, filename);
    Nil(device.log);
    if !config.modified { return true, found, before, steps; }
    if filename == None || IsRawApa(filename.value) { return false, found, before, steps; }
    saved, before, steps := SaveModified(config, device, filename.value);
  }
}
