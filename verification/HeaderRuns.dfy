/**
  The persisted header store as the agent updates it: the entries in memory and
  the state file, which holds what JSON makes of them.
 */
module HeaderRuns {
  import opened Wrappers
  import opened HeaderStore
  import Utf8

  type Entries = map<string, string>

  /** `file` is the state file as it parses; none when it is missing or unreadable. */
  datatype Store = Store(entries: Entries, file: Option<Entries>)

  /** What reads back from the file after these entries are written. */
  function Encoded(entries: Entries): Entries {
    map n | n in entries :: Utf8.Fix(entries[n])
  }

  function SetTo(s: Store, name: string, value: string, wrote: bool): (Store, Option<Error>) {
    match Check(name, value)
    case Err(e) => (s, Some(e))
    case Ok(c) =>
      if c !in s.entries && |s.entries| >= MAX_ENTRIES then (s, Some(Full))
      else if !wrote then (s, Some(PersistFailed))
      else (Store(s.entries[c := value], Some(Encoded(s.entries[c := value]))), None)
  }

  function ClearTo(s: Store, name: string, wrote: bool): (Store, Option<Error>) {
    if name != "*" && CheckName(name).Err? then (s, Some(CheckName(name).error))
    else if !wrote then (s, Some(PersistFailed))
    else
      var next := if name == "*" then map[] else s.entries - {Canon(name, true)};
      (Store(next, Some(Encoded(next))), None)
  }

  /** The entries kept from a parsed file whose names are visited in this order. */
  function LoadFrom(m: Entries, names: seq<string>, kept: Entries): Entries {
    if names == [] || |kept| >= MAX_ENTRIES then kept
    else if names[0] in m && Check(names[0], m[names[0]]).Ok? then
      LoadFrom(m, names[1..], kept[Check(names[0], m[names[0]]).value := m[names[0]]])
    else LoadFrom(m, names[1..], kept)
  }

  function Loaded(file: Option<Entries>, names: seq<string>): Entries {
    if file.None? then map[] else LoadFrom(file.value, names, map[])
  }

  /** The file's names, each once, in the order a load visits them. */
  ghost predicate Lists(names: seq<string>, m: Entries) {
    && (forall i :: 0 <= i < |names| ==> names[i] in m)
    && (forall n :: n in m ==> n in names)
    && (forall i, j :: 0 <= i < j < |names| ==> names[i] != names[j])
  }

  /** What is stored under a name. */
  function At(entries: Entries, n: string): Option<string> {
    if n in entries then Some(entries[n]) else None
  }

  /** How entries are written as text and read back; an invalid byte comes back as U+FFFD. */
  datatype Codec = Codec(marshal: Entries -> string, parse: string -> Option<Entries>)

  ghost predicate Lawful(c: Codec) {
    forall e :: c.parse(c.marshal(e)) == Some(Encoded(e))
  }

  /** Where a write stops: a step fails, or the process dies, having written so many bytes. */
  datatype Stop = AtOpen | AtWrite(written: nat) | AtClose | AtRename | Never

  function Parsed(c: Codec, text: Option<string>): Option<Entries> {
    if text.None? then None else c.parse(text.value)
  }

  class HeaderFile {
    const codec: Codec
    var entries: Entries
    var text: Option<string>   // the state file
    var temp: Option<string>   // the temporary file beside it

    function Now(): Store
      reads this
    {
      Store(entries, Parsed(codec, text))
    }

    /** Boot: `names` are the file's keys in ascending order. */
    constructor (codec: Codec, text: Option<string>, names: seq<string>)
      requires Parsed(codec, text).Some? ==> Lists(names, Parsed(codec, text).value)
      ensures this.codec == codec && this.text == text && this.temp == None
      ensures Now() == Store(Loaded(Parsed(codec, text), names), Parsed(codec, text))
    {
      this.codec, this.entries, this.text, this.temp := codec, map[], text, None;
      new;
      var file := Parsed(codec, text);
      if file.Some? {
        ghost var all := LoadFrom(file.value, names, map[]);
        var i := 0;
        while i < |names| && |entries| < MAX_ENTRIES
          invariant 0 <= i <= |names| && this.text == text && this.temp == None
          invariant LoadFrom(file.value, names[i..], entries) == all
          decreases |names| - i
        {
          assert names[i..][1..] == names[i+1..] && names[i..][0] == names[i];
          var value := file.value[names[i]];
          var canonical := Validate(names[i], value);
          if canonical.Ok? {
            entries := entries[canonical.value := value];
          }
          i := i + 1;
        }
      }
    }

    method Set(name: string, value: string, stop: Stop) returns (err: Option<Error>)
      requires Lawful(codec)
      modifies this
      ensures (Now(), err) == SetTo(old(Now()), name, value, stop.Never?)
      ensures forall n :: At(entries, n) == if err.None? && n == Canon(name, true) then Some(value) else At(old(entries), n)
    {
      CheckExactly(name, value);
      var canonical := Validate(name, value);
      if canonical.Err? {
        return Some(canonical.error);
      }
      if canonical.value !in entries && |entries| >= MAX_ENTRIES {
        return Some(Full);
      }
      var next := entries[canonical.value := value];
      err := Persist(next, stop);
      if err.None? {
        entries := next;
      }
    }

    method Clear(name: string, stop: Stop) returns (err: Option<Error>)
      requires Lawful(codec)
      modifies this
      ensures (Now(), err) == ClearTo(old(Now()), name, stop.Never?)
      ensures forall n :: At(entries, n) ==
                          if err.None? && (name == "*" || n == Canon(name, true)) then None else At(old(entries), n)
    {
      if name != "*" {
        var canonical := ValidateName(name);
        if canonical.Err? {
          return Some(canonical.error);
        }
      }
      var next := entries;
      if name == "*" {
        next := map[];
      } else {
        next := next - {Canon(name, true)};
      }
      err := Persist(next, stop);
      if err.None? {
        entries := next;
      }
    }

    /**
      The text goes into the temporary file, truncated first and written in part if the write
      stops, and reaches the state file by the rename alone.
     */
    method Persist(next: Entries, stop: Stop) returns (err: Option<Error>)
      requires Lawful(codec)
      modifies this`text, this`temp
      ensures err == if stop.Never? then None else Some(PersistFailed)
      ensures text == old(text) || Parsed(codec, text) == Some(Encoded(next))
      ensures Parsed(codec, text) == if err.None? then Some(Encoded(next)) else old(Parsed(codec, text))
    {
      var raw := codec.marshal(next);
      if stop.AtOpen? {
        return Some(PersistFailed);
      }
      temp := Some("");
      if stop.AtWrite? {
        temp := Some(if stop.written <= |raw| then raw[..stop.written] else raw);
        return Some(PersistFailed);
      }
      temp := Some(raw);
      if stop.AtClose? || stop.AtRename? {
        return Some(PersistFailed);
      }
      text, temp := temp, None;
      return None;
    }
  }

  // ---- what every run keeps ----

  ghost predicate Sound(entries: Entries) {
    && |entries| <= MAX_ENTRIES
    && forall n :: n in entries ==> GoodName(n) && GoodValue(entries[n])
  }

  datatype Op = Set(name: string, value: string, wrote: bool) | Clear(name: string, wrote: bool) | Restart(names: seq<string>)

  function Step(s: Store, op: Op): Store {
    match op
    case Set(name, value, wrote) => SetTo(s, name, value, wrote).0
    case Clear(name, wrote) => ClearTo(s, name, wrote).0
    case Restart(names) => Store(Loaded(s.file, names), s.file)
  }

  /** The operation changed the store: it validated, fitted and was written. */
  predicate Succeeds(s: Store, op: Op) {
    match op
    case Set(name, value, wrote) => SetTo(s, name, value, wrote).1.None?
    case Clear(name, wrote) => ClearTo(s, name, wrote).1.None?
    case Restart(_) => false
  }

  lemma Grow(entries: Entries, n: string, v: string)
    ensures |entries[n := v]| == if n in entries then |entries| else |entries| + 1
  {
    assert entries[n := v].Keys == entries.Keys + {n};
    assert |entries| == |entries.Keys| && |entries[n := v]| == |entries[n := v].Keys|;
    if n in entries {
      assert entries.Keys + {n} == entries.Keys;
    }
  }

  lemma Shrink(entries: Entries, n: string)
    ensures |entries - {n}| <= |entries|
  {
    var rest := entries - {n};
    assert |rest| == |rest.Keys| && |entries| == |entries.Keys|;
    if n in entries {
      assert entries.Keys == rest.Keys + {n};
    } else {
      assert entries.Keys == rest.Keys;
    }
  }

  lemma {:induction false} LoadSound(m: Entries, names: seq<string>, kept: Entries)
    requires Sound(kept)
    ensures Sound(LoadFrom(m, names, kept))
    decreases names
  {
    if names == [] || |kept| >= MAX_ENTRIES {
    } else {
      if names[0] in m && Check(names[0], m[names[0]]).Ok? {
        CheckGives(names[0], m[names[0]]);
        Grow(kept, Check(names[0], m[names[0]]).value, m[names[0]]);
        LoadSound(m, names[1..], kept[Check(names[0], m[names[0]]).value := m[names[0]]]);
      } else {
        LoadSound(m, names[1..], kept);
      }
    }
  }

  lemma SoundGrow(entries: Entries, n: string, v: string)
    requires Sound(entries) && GoodName(n) && GoodValue(v) && (n in entries || |entries| < MAX_ENTRIES)
    ensures Sound(entries[n := v])
  {
    Grow(entries, n, v);
  }

  lemma SoundShrink(entries: Entries, n: string)
    requires Sound(entries)
    ensures Sound(entries - {n})
  {
    Shrink(entries, n);
  }

  lemma SetSound(s: Store, name: string, value: string, wrote: bool)
    requires Sound(s.entries)
    ensures Sound(SetTo(s, name, value, wrote).0.entries)
  {
    if SetTo(s, name, value, wrote).1.None? {
      CheckGives(name, value);
      SoundGrow(s.entries, Check(name, value).value, value);
    }
  }

  lemma ClearSound(s: Store, name: string, wrote: bool)
    requires Sound(s.entries)
    ensures Sound(ClearTo(s, name, wrote).0.entries)
  {
    SoundShrink(s.entries, Canon(name, true));
  }

  lemma StepSound(s: Store, op: Op)
    requires Sound(s.entries)
    ensures Sound(Step(s, op).entries)
  {
    match op
    case Set(name, value, wrote) => SetSound(s, name, value, wrote);
    case Clear(name, wrote) => ClearSound(s, name, wrote);
    case Restart(names) =>
      if s.file.Some? {
        LoadSound(s.file.value, names, map[]);
      }
  }

  /** A successful change rewrites the file from memory; a refused or failed one changes nothing. */
  lemma AllOrNothing(s: Store, op: Op)
    requires !op.Restart?
    ensures if Succeeds(s, op) then Step(s, op).file == Some(Encoded(Step(s, op).entries)) else Step(s, op) == s
  {
  }

  function Run(file: Option<Entries>, names: seq<string>, ops: seq<Op>): Store {
    if ops == [] then Store(Loaded(file, names), file)
    else Step(Run(file, names, ops[..|ops|-1]), ops[|ops|-1])
  }

  /** From any file and through any operations, write failures and restarts, the entries stay sound. */
  lemma {:induction false} AlwaysSound(file: Option<Entries>, names: seq<string>, ops: seq<Op>)
    ensures Sound(Run(file, names, ops).entries)
  {
    if ops == [] {
      if file.Some? {
        LoadSound(file.value, names, map[]);
      }
    } else {
      AlwaysSound(file, names, ops[..|ops|-1]);
      StepSound(Run(file, names, ops[..|ops|-1]), ops[|ops|-1]);
    }
  }

  // ---- the last word on a name ----

  /** A set that takes effect on a store with these entries. */
  ghost predicate Sets(entries: Entries, op: Op) {
    && op.Set? && op.wrote && Acceptable(op.name)
    && 1 <= |op.value| <= 4096 && (forall i :: 0 <= i < |op.value| ==> !BreaksValue(op.value[i]))
    && (Canon(op.name, true) in entries || |entries| < 20)
  }

  ghost predicate Clears(op: Op) {
    op.Clear? && op.wrote && (op.name == "*" || Acceptable(op.name))
  }

  /** The operation decides what is stored under `n`. */
  ghost predicate Decides(entries: Entries, op: Op, n: string) {
    || (Sets(entries, op) && n == Canon(op.name, true))
    || (Clears(op) && (op.name == "*" || n == Canon(op.name, true)))
  }

  /** One change, name by name: the name it decides gets its value or is gone, every other is stored as before. */
  lemma ChangeExactly(s: Store, op: Op, n: string)
    requires !op.Restart?
    ensures Succeeds(s, op) <==> Sets(s.entries, op) || Clears(op)
    ensures At(Step(s, op).entries, n) ==
            if Decides(s.entries, op, n) then Said(op) else At(s.entries, n)
  {
    if op.Set? {
      CheckExactly(op.name, op.value);
    } else {
      CheckExactly(op.name, "");
    }
  }

  function RunFrom(s: Store, ops: seq<Op>): Store {
    if ops == [] then s else Step(RunFrom(s, ops[..|ops|-1]), ops[|ops|-1])
  }

  ghost predicate DecidesAt(s: Store, ops: seq<Op>, n: string, i: nat) {
    i < |ops| && Decides(RunFrom(s, ops[..i]).entries, ops[i], n)
  }

  /** Operation `i` decides `n`, and none after it does. */
  ghost predicate LastWord(s: Store, ops: seq<Op>, n: string, i: nat) {
    DecidesAt(s, ops, n, i) && forall j: nat :: i < j ==> !DecidesAt(s, ops, n, j)
  }

  function Said(op: Op): Option<string> {
    if op.Set? then Some(op.value) else None
  }

  /** What that operation says, or what was there if there is none. */
  ghost predicate Tells(s: Store, ops: seq<Op>, n: string, stored: Option<string>) {
    && (forall i: nat :: LastWord(s, ops, n, i) ==> stored == Said(ops[i]))
    && ((forall i: nat :: !LastWord(s, ops, n, i)) ==> stored == At(s.entries, n))
  }

  lemma DecidesSame(s: Store, ops: seq<Op>, n: string, k: nat, j: nat)
    requires j < k < |ops|
    ensures DecidesAt(s, ops, n, j) <==> DecidesAt(s, ops[..k], n, j)
    ensures ops[j] == ops[..k][j]
  {
    assert ops[..k][..j] == ops[..j];
  }

  lemma WordKept(s: Store, ops: seq<Op>, n: string, k: nat, i: nat)
    requires k + 1 == |ops| && !DecidesAt(s, ops, n, k)
    ensures LastWord(s, ops, n, i) <==> LastWord(s, ops[..k], n, i)
    ensures i < k ==> ops[i] == ops[..k][i]
  {
    forall j: nat ensures DecidesAt(s, ops, n, j) <==> DecidesAt(s, ops[..k], n, j) {
      SameOrLast(s, ops, n, k, j);
    }
  }

  lemma SameOrLast(s: Store, ops: seq<Op>, n: string, k: nat, j: nat)
    requires k + 1 == |ops| && !DecidesAt(s, ops, n, k)
    ensures DecidesAt(s, ops, n, j) <==> DecidesAt(s, ops[..k], n, j)
  {
    if j < k {
      DecidesSame(s, ops, n, k, j);
    }
  }

  lemma TellsKept(s: Store, ops: seq<Op>, n: string, k: nat, stored: Option<string>)
    requires k + 1 == |ops| && Tells(s, ops[..k], n, stored) && !DecidesAt(s, ops, n, k)
    ensures Tells(s, ops, n, stored)
  {
    forall i: nat ensures LastWord(s, ops, n, i) <==> LastWord(s, ops[..k], n, i) {
      WordKept(s, ops, n, k, i);
    }
    forall i: nat | LastWord(s, ops, n, i) ensures stored == Said(ops[i]) {
      WordKept(s, ops, n, k, i);
    }
  }

  lemma TellsDecided(s: Store, ops: seq<Op>, n: string, k: nat)
    requires k + 1 == |ops| && DecidesAt(s, ops, n, k)
    ensures Tells(s, ops, n, Said(ops[k]))
  {
    assert LastWord(s, ops, n, k);
  }

  lemma TellsOneMore(s: Store, ops: seq<Op>, n: string, k: nat, before: Option<string>, stored: Option<string>)
    requires k + 1 == |ops| && Tells(s, ops[..k], n, before)
    requires stored == if DecidesAt(s, ops, n, k) then Said(ops[k]) else before
    ensures Tells(s, ops, n, stored)
  {
    if DecidesAt(s, ops, n, k) {
      TellsDecided(s, ops, n, k);
    } else {
      TellsKept(s, ops, n, k, before);
    }
  }

  /** A store whose file holds what is in memory, well-formed, or that has neither. */
  ghost predicate Settled(s: Store) {
    && Sound(s.entries) && WellFormed(s.entries)
    && (s.file == Some(s.entries) || (s.file == None && s.entries == map[]))
  }

  /** A restart visits each of the file's names once. */
  ghost predicate Restarts(s: Store, op: Op) {
    op.Restart? && (s.file.Some? ==> Lists(op.names, s.file.value))
  }

  lemma LastChange(s: Store, ops: seq<Op>, k: nat, n: string)
    requires k + 1 == |ops| && !ops[k].Restart?
    ensures At(RunFrom(s, ops).entries, n) ==
            if DecidesAt(s, ops, n, k) then Said(ops[k]) else At(RunFrom(s, ops[..k]).entries, n)
  {
    ChangeExactly(RunFrom(s, ops[..k]), ops[k], n);
  }

  /**
    Over any sets, clears, refusals and failed writes, from any store, a name
    holds what the last operation that decided it says.
   */
  lemma {:induction false} LastWordHolds(s: Store, ops: seq<Op>, n: string)
    requires forall i :: 0 <= i < |ops| ==> !ops[i].Restart?
    ensures Tells(s, ops, n, At(RunFrom(s, ops).entries, n))
  {
    if ops == [] {
    } else {
      var k := |ops| - 1;
      LastWordHolds(s, ops[..k], n);
      LastChange(s, ops, k, n);
      TellsOneMore(s, ops, n, k, At(RunFrom(s, ops[..k]).entries, n), At(RunFrom(s, ops).entries, n));
    }
  }

  // ---- memory and file ----

  /** Every value is well-formed UTF-8. */
  ghost predicate WellFormed(entries: Entries) {
    forall n :: n in entries ==> Utf8.Valid(entries[n])
  }

  lemma EncodedExactly(entries: Entries)
    ensures Encoded(entries) == entries <==> WellFormed(entries)
  {
    forall n | n in entries {
      Utf8.FixExactly(entries[n]);
    }
    if Encoded(entries) == entries {
      forall n | n in entries ensures Utf8.Valid(entries[n]) {
        assert Encoded(entries)[n] == entries[n];
      }
    }
  }

  /** After a successful change, file and memory are the same exactly when every value is well-formed UTF-8. */
  lemma FileMatchesExactly(file: Option<Entries>, names: seq<string>, ops: seq<Op>)
    requires ops != [] && Succeeds(Run(file, names, ops[..|ops|-1]), ops[|ops|-1])
    ensures Run(file, names, ops).file == Some(Run(file, names, ops).entries)
            <==> WellFormed(Run(file, names, ops).entries)
  {
    var before := Run(file, names, ops[..|ops|-1]);
    AllOrNothing(before, ops[|ops|-1]);
    EncodedExactly(Run(file, names, ops).entries);
  }

  /** Loading names that are already canonical keeps each under its own name with the file's value. */
  lemma {:induction false} LoadOwn(m: Entries, names: seq<string>, kept: Entries, n: string)
    requires forall i :: 0 <= i < |names| ==> Canon(names[i], true) == names[i]
    requires n in kept ==> n in m && kept[n] == m[n]
    ensures n in LoadFrom(m, names, kept) ==> n in m && LoadFrom(m, names, kept)[n] == m[n]
    decreases names
  {
    if names == [] || |kept| >= MAX_ENTRIES {
    } else {
      if names[0] in m && Check(names[0], m[names[0]]).Ok? {
        CheckGives(names[0], m[names[0]]);
        LoadOwn(m, names[1..], kept[names[0] := m[names[0]]], n);
      } else {
        LoadOwn(m, names[1..], kept, n);
      }
    }
  }

  function Part(m: Entries, names: seq<string>): Entries {
    map n | n in m && n in names :: m[n]
  }

  lemma Smaller(a: Entries, m: Entries, n: string)
    requires a.Keys <= m.Keys && n in m && n !in a
    ensures |a| < |m|
  {
    var s := a.Keys + {n};
    assert m.Keys == s + (m.Keys - s);
    assert |a| == |a.Keys| && |m| == |m.Keys|;
  }

  lemma PartGrows(m: Entries, names: seq<string>, i: nat)
    requires Lists(names, m) && i < |names|
    ensures names[i] !in Part(m, names[..i])
    ensures Part(m, names[..i])[names[i] := m[names[i]]] == Part(m, names[..i+1])
  {
    assert names[..i+1] == names[..i] + [names[i]];
  }

  /** There is room for the next entry, and it validates. */
  lemma LoadNext(m: Entries, names: seq<string>, i: nat)
    requires Sound(m) && Lists(names, m) && i < |names|
    ensures |Part(m, names[..i])| < MAX_ENTRIES && Check(names[i], m[names[i]]) == Ok(names[i])
    ensures Part(m, names[..i])[names[i] := m[names[i]]] == Part(m, names[..i+1])
  {
    PartGrows(m, names, i);
    Smaller(Part(m, names[..i]), m, names[i]);
    GoodChecks(names[i], m[names[i]]);
  }

  lemma LoadTakes(m: Entries, names: seq<string>, i: nat, kept: Entries)
    requires i < |names| && |kept| < MAX_ENTRIES && names[i] in m && Check(names[i], m[names[i]]) == Ok(names[i])
    ensures LoadFrom(m, names[i..], kept) == LoadFrom(m, names[i+1..], kept[names[i] := m[names[i]]])
  {
    assert names[i..][0] == names[i] && names[i..][1..] == names[i+1..];
  }

  lemma PartOfAll(m: Entries, names: seq<string>)
    requires Lists(names, m)
    ensures Part(m, names[..|names|]) == m
  {
    assert names[..|names|] == names;
  }

  /** Loading sound entries keeps them all. */
  lemma {:induction false} LoadAll(m: Entries, names: seq<string>, i: nat)
    requires Sound(m) && Lists(names, m) && i <= |names|
    ensures LoadFrom(m, names[i..], Part(m, names[..i])) == m
    decreases |names| - i
  {
    if i == |names| {
      PartOfAll(m, names);
    } else {
      LoadNext(m, names, i);
      LoadTakes(m, names, i, Part(m, names[..i]));
      LoadAll(m, names, i + 1);
    }
  }

  /** A restart after a successful change brings back the same entries exactly when every value is well-formed UTF-8. */
  lemma ReloadExactly(entries: Entries, names: seq<string>)
    requires Sound(entries) && Lists(names, Encoded(entries))
    ensures Loaded(Some(Encoded(entries)), names) == entries <==> WellFormed(entries)
  {
    EncodedExactly(entries);
    if WellFormed(entries) {
      LoadAll(entries, names, 0);
      assert names[0..] == names && Part(entries, names[..0]) == map[];
    } else {
      var n :| n in entries && !Utf8.Valid(entries[n]);
      Utf8.FixExactly(entries[n]);
      assert Encoded(entries)[n] != entries[n];
      LoadOwn(Encoded(entries), names, map[], n);
    }
  }

  // ---- through restarts ----

  /** Restarts that visit the file's names, and sets of well-formed values. */
  ghost predicate Careful(s: Store, ops: seq<Op>) {
    forall i :: 0 <= i < |ops| ==>
                  && (ops[i].Restart? ==> Restarts(RunFrom(s, ops[..i]), ops[i]))
                  && (ops[i].Set? ==> Utf8.Valid(ops[i].value))
  }

  lemma CarefulBefore(s: Store, ops: seq<Op>, k: nat)
    requires k < |ops| && Careful(s, ops)
    ensures Careful(s, ops[..k])
  {
    assert forall j :: 0 <= j < k ==> ops[..k][..j] == ops[..j] && ops[..k][j] == ops[j];
  }

  lemma ChangeSettles(s: Store, op: Op)
    requires Settled(s) && !op.Restart? && (op.Set? ==> Utf8.Valid(op.value))
    ensures Settled(Step(s, op))
  {
    StepSound(s, op);
    AllOrNothing(s, op);
    var after := Step(s, op).entries;
    forall n | n in after ensures Utf8.Valid(after[n]) {
      ChangeExactly(s, op, n);
      assert At(after, n) == Some(after[n]);
    }
    EncodedExactly(after);
  }

  lemma RestartKeeps(s: Store, op: Op)
    requires Settled(s) && Restarts(s, op)
    ensures Step(s, op) == s
  {
    if s.file.Some? {
      EncodedExactly(s.entries);
      ReloadExactly(s.entries, op.names);
    }
  }

  lemma SettledStep(s: Store, op: Op, n: string)
    requires Settled(s) && (op.Restart? ==> Restarts(s, op)) && (op.Set? ==> Utf8.Valid(op.value))
    ensures Settled(Step(s, op))
    ensures At(Step(s, op).entries, n) == if Decides(s.entries, op, n) then Said(op) else At(s.entries, n)
  {
    if op.Restart? {
      RestartKeeps(s, op);
    } else {
      ChangeSettles(s, op);
      ChangeExactly(s, op, n);
    }
  }

  lemma CarefulLast(s: Store, ops: seq<Op>, k: nat)
    requires k + 1 == |ops| && Careful(s, ops)
    ensures ops[k].Restart? ==> Restarts(RunFrom(s, ops[..k]), ops[k])
    ensures ops[k].Set? ==> Utf8.Valid(ops[k].value)
    ensures RunFrom(s, ops) == Step(RunFrom(s, ops[..k]), ops[k])
  {
  }

  /** The same through restarts, from a store that its file holds and with well-formed values: nothing is lost or revived. */
  lemma {:induction false} LastWordSurvives(s: Store, ops: seq<Op>, n: string)
    requires Settled(s) && Careful(s, ops)
    ensures Settled(RunFrom(s, ops)) && Tells(s, ops, n, At(RunFrom(s, ops).entries, n))
  {
    if ops == [] {
    } else {
      var k := |ops| - 1;
      CarefulBefore(s, ops, k);
      LastWordSurvives(s, ops[..k], n);
      CarefulLast(s, ops, k);
      SettledStep(RunFrom(s, ops[..k]), ops[k], n);
      TellsOneMore(s, ops, n, k, At(RunFrom(s, ops[..k]).entries, n), At(RunFrom(s, ops).entries, n));
    }
  }
}
