/** The ASCII form of an instruction dependency trace: one line per record, written by the
    decoder and read back by the encoder. */
module DepTrace {
  import opened Common
  import opened Text

  datatype RecordType = Invalid | Load | Store | Comp

  /** All fields of the message. `HasField` of an optional field is modelled by `Some?`. */
  datatype Record = Record(
    seqNum: nat, pc: Option<nat>, weight: Option<nat>, kind: RecordType,
    pAddr: Option<nat>, size: Option<nat>, flags: Option<nat>,
    compDelay: nat, robDep: seq<nat>, regDep: seq<nat>,
    vAddr: Option<nat>, asid: Option<nat>)

  const UINT32: int := 0x1_0000_0000
  const UINT64: int := 0x1_0000_0000_0000_0000

  function NameOf(t: RecordType): string {
    match t
    case Invalid => "INVALID"
    case Load => "LOAD"
    case Store => "STORE"
    case Comp => "COMP"
  }

  function TypeNamed(s: string): Option<RecordType> {
    if s == "INVALID" then Some(Invalid) else if s == "LOAD" then Some(Load)
    else if s == "STORE" then Some(Store) else if s == "COMP" then Some(Comp) else None
  }

  ghost predicate Fits(v: Option<nat>, limit: int) { v.Some? ==> v.value < limit }

  /** The field widths of the message definition. */
  ghost predicate InRange(r: Record) {
    && r.seqNum < UINT64 && r.compDelay < UINT64
    && Fits(r.pc, UINT64) && Fits(r.weight, UINT32)
    && Fits(r.pAddr, UINT64) && Fits(r.size, UINT32) && Fits(r.flags, UINT32)
    && Fits(r.vAddr, UINT64) && Fits(r.asid, UINT32)
    && (forall d :: d in r.robDep ==> d < UINT64)
    && (forall d :: d in r.regDep ==> d < UINT64)
  }

  // ---------- printing ----------

  function GetOr(v: Option<nat>, default: nat): nat { if v.Some? then v.value else default }

  function OptionalField(v: Option<nat>): seq<string> { if v.Some? then [Digits(v.value)] else [] }

  /** The comma-separated fields after the sequence number. */
  function InfoFields(r: Record): seq<string> {
    [Digits(GetOr(r.pc, 0)), Digits(GetOr(r.weight, 1)), NameOf(r.kind)]
    + OptionalField(r.pAddr) + OptionalField(r.size) + OptionalField(r.flags)
    + [Digits(r.compDelay)]
  }

  function DepFields(deps: seq<nat>): seq<string> { seq(|deps|, i requires 0 <= i < |deps| => Digits(deps[i])) }

  function InfoText(r: Record): string { Digits(r.seqNum) + Prefixed(InfoFields(r), ',') }

  function DepText(deps: seq<nat>): string { Prefixed(DepFields(deps), ',') }

  function LineText(r: Record): string {
    InfoText(r) + [':'] + DepText(r.robDep) + [':'] + DepText(r.regDep)
  }

  method PrintDeps(deps: seq<nat>) returns (out: string)
    ensures out == DepText(deps)
  {
    out := "";
    for i := 0 to |deps|
      invariant out == DepText(deps[..i])
    {
      out := out + "," + Digits(deps[i]);
      assert DepFields(deps[..i + 1])[..i] == DepFields(deps[..i]);
    }
    assert deps[..|deps|] == deps;
  }

  lemma PrefixedNext(fields: seq<string>, f: string)
    ensures Prefixed(fields + [f], ',') == Prefixed(fields, ',') + "," + f
  {
    assert (fields + [f])[..|fields|] == fields;
  }

  /** Appends one field to a line that holds `head` and `fields` so far. */
  method WriteField(line: string, f: string, ghost head: string, ghost fields: seq<string>) returns (out: string)
    requires line == head + Prefixed(fields, ',')
    ensures out == head + Prefixed(fields + [f], ',')
  {
    PrefixedNext(fields, f);
    out := line + "," + f;
  }

  method WriteOptional(line: string, v: Option<nat>, ghost head: string, ghost fields: seq<string>) returns (out: string)
    requires line == head + Prefixed(fields, ',')
    ensures out == head + Prefixed(fields + OptionalField(v), ',')
  {
    if v.Some? {
      out := WriteField(line, Digits(v.value), head, fields);
    } else {
      out := line;
      assert fields + [] == fields;
    }
  }

  method PrintInfo(r: Record) returns (line: string)
    ensures line == InfoText(r)
  {
    line := Digits(r.seqNum);
    ghost var head, f0: seq<string> := line, [];
    var pc, weight := Digits(GetOr(r.pc, 0)), Digits(GetOr(r.weight, 1));
    line := WriteField(line, pc, head, f0);
    ghost var f1 := f0 + [pc];
    line := WriteField(line, weight, head, f1);
    ghost var f2 := f1 + [weight];
    line := WriteField(line, NameOf(r.kind), head, f2);
    ghost var f3 := f2 + [NameOf(r.kind)];
    line := WriteOptional(line, r.pAddr, head, f3);
    ghost var f4 := f3 + OptionalField(r.pAddr);
    line := WriteOptional(line, r.size, head, f4);
    ghost var f5 := f4 + OptionalField(r.size);
    line := WriteOptional(line, r.flags, head, f5);
    ghost var f6 := f5 + OptionalField(r.flags);
    line := WriteField(line, Digits(r.compDelay), head, f6);
    assert f3 == [pc, weight, NameOf(r.kind)];
  }

  method PrintRecord(r: Record) returns (line: string)
    ensures line == LineText(r) + "\n"
  {
    line := PrintInfo(r);
    var rob := PrintDeps(r.robDep);
    line := line + ":" + rob;
    var reg := PrintDeps(r.regDep);
    line := line + ":" + reg;
    line := line + "\n";
  }


  // ---------- parsing ----------

  /** `Malformed` stands for every error the interpreter raises: a missing or surplus part, a
      string that is no number, a number that does not fit its field. */
  datatype Parsed = Ok(r: Record) | Malformed | UnsupportedType(name: string) | InvalidType

  function Number(s: string, limit: int): Option<nat> {
    match ParseInt(s)
    case Some(v) => if 0 <= v < limit then Some(v) else None
    case None => None
  }

  /** A list of dependencies; empty items are skipped. */
  function DepList(items: seq<string>): Option<seq<nat>> {
    if items == [] then Some([])
    else
      var front, last := DepList(items[..|items| - 1]), items[|items| - 1];
      if front.None? || last == "" then front
      else match Number(last, UINT64) case Some(d) => Some(front.value + [d]) case None => None
  }

  /** Address, size, flags and delay of a memory record. */
  function MemoryFields(f: seq<string>): Option<(nat, nat, nat, nat)>
    requires |f| == 4
  {
    var a, z, g, d := Number(f[0], UINT64), Number(f[1], UINT32), Number(f[2], UINT32), Number(f[3], UINT64);
    if a.None? || z.None? || g.None? || d.None? then None else Some((a.value, z.value, g.value, d.value))
  }

  /** The part of a record before the dependencies. */
  function InfoParsed(info: seq<string>): Parsed {
    if |info| < 4 then Malformed
    else
      var sn, pc, weight, kind := Number(info[0], UINT64), Number(info[1], UINT64), Number(info[2], UINT32), TypeNamed(info[3]);
      if sn.None? || pc.None? || weight.None? then Malformed
      else if kind.None? then UnsupportedType(info[3])
      else if kind.value == Invalid then InvalidType
      else if kind.value == Load || kind.value == Store then
        if |info| < 8 then Malformed
        else
          var m := MemoryFields(info[4..8]);
          if m.None? then Malformed
          else Ok(Record(sn.value, pc, weight, kind.value, Some(m.value.0), Some(m.value.1), Some(m.value.2), m.value.3, [], [], None, None))
      else if |info| < 5 then Malformed
      else
        var d := Number(info[4], UINT64);
        if d.None? then Malformed else Ok(Record(sn.value, pc, weight, kind.value, None, None, None, d.value, [], [], None, None))
  }

  function LineParsed(line: string): Parsed {
    var parts := Split(Strip(line), ':');
    if |parts| != 3 then Malformed
    else
      var p := InfoParsed(Split(parts[0], ','));
      if !p.Ok? then p
      else
        var rob, reg := DepList(Split(Strip(parts[1]), ',')), DepList(Split(parts[2], ','));
        if rob.None? || reg.None? then Malformed else Ok(p.r.(robDep := rob.value, regDep := reg.value))
  }

  method ParseDeps(items: seq<string>) returns (deps: Option<seq<nat>>)
    ensures deps == DepList(items)
  {
    var found: seq<nat> := [];
    for i := 0 to |items|
      invariant DepList(items[..i]) == Some(found)
    {
      assert items[..i + 1][..i] == items[..i];
      if items[i] != "" {
        var d := Number(items[i], UINT64);
        if d.None? {
          UnparsableDep(items, i + 1);
          return None;
        }
        found := found + [d.value];
      }
    }
    assert items[..|items|] == items;
    return Some(found);
  }

  lemma {:induction false} UnparsableDep(items: seq<string>, k: nat)
    requires k <= |items| && DepList(items[..k]).None?
    ensures DepList(items).None?
  {
    if k == |items| {
      assert items[..k] == items;
    } else {
      assert items[..|items| - 1][..k] == items[..k];
      UnparsableDep(items[..|items| - 1], k);
    }
  }

  method ParseLine(line: string) returns (p: Parsed)
    ensures p == LineParsed(line)
  {
    var parts := Split(Strip(line), ':');
    if |parts| != 3 {
      return Malformed;
    }
    p := InfoParsed(Split(parts[0], ','));
    if !p.Ok? {
      return;
    }
    var rob := ParseDeps(Split(Strip(parts[1]), ','));
    var reg := ParseDeps(Split(parts[2], ','));
    if rob.None? || reg.None? {
      return Malformed;
    }
    return Ok(p.r.(robDep := rob.value, regDep := reg.value));
  }

  // ---------- the round trip ----------

  /** Defaults are written out for the program counter and the weight. */
  function Normalized(r: Record): Record {
    r.(pc := Some(GetOr(r.pc, 0)), weight := Some(GetOr(r.weight, 1)))
  }

  /** Memory records carry address, size and flags; computation records carry none of them. */
  ghost predicate WellShaped(r: Record) {
    match r.kind
    case Invalid => false
    case Load => r.pAddr.Some? && r.size.Some? && r.flags.Some?
    case Store => r.pAddr.Some? && r.size.Some? && r.flags.Some?
    case Comp => r.pAddr.None? && r.size.None? && r.flags.None?
  }

  /** The text has no place for the virtual address and the address space. */
  ghost predicate Survives(r: Record) { WellShaped(r) && r.vAddr.None? && r.asid.None? }

  /** What a computation record's first number after its type is: any memory field comes before the delay. */
  function FirstNumber(r: Record): nat { GetOr(r.pAddr, GetOr(r.size, GetOr(r.flags, r.compDelay))) }

  /** What the printed line of any record reads back as. */
  function ReadsBackAs(r: Record): Parsed {
    var kept := Normalized(r).(vAddr := None, asid := None);
    match r.kind
    case Invalid => InvalidType
    case Comp => Ok(kept.(pAddr := None, size := None, flags := None, compDelay := FirstNumber(r)))
    case _ => if r.pAddr.Some? && r.size.Some? && r.flags.Some? then Ok(kept) else Malformed
  }

  lemma NumberOfDigits(n: nat, limit: int)
    requires n < limit
    ensures Number(Digits(n), limit) == Some(n)
  {
    ParseDigits(n);
  }

  /** Characters of the printed fields: neither separators nor white space. */
  ghost predicate Plain(s: string) {
    forall c :: c in s ==> c != ',' && c != ':' && !IsSpace(c)
  }

  lemma NamesPlain(t: RecordType)
    ensures Plain(NameOf(t)) && TypeNamed(NameOf(t)) == Some(t)
  {
  }

  lemma InfoFieldsPlain(r: Record)
    ensures forall f :: f in InfoFields(r) ==> Plain(f)
  {
    NamesPlain(r.kind);
  }

  ghost predicate CommasOnly(s: string) {
    forall c :: c in s ==> c != ':' && !IsSpace(c)
  }

  lemma PrefixedPlain(fields: seq<string>)
    requires forall f :: f in fields ==> Plain(f)
    ensures CommasOnly(Prefixed(fields, ','))
  {
    PrefixedChars(fields, ',');
  }

  lemma DepFieldsPlain(deps: seq<nat>)
    ensures forall f :: f in DepFields(deps) ==> Plain(f)
  {
  }

  lemma {:induction false} DepListOfFields(items: seq<string>, deps: seq<nat>)
    requires items == [""] + DepFields(deps) && forall d :: d in deps ==> d < UINT64
    ensures DepList(items) == Some(deps)
  {
    if deps == [] {
      assert items == [""] && items[..0] == [];
    } else {
      var front, last := deps[..|deps| - 1], deps[|deps| - 1];
      assert deps == front + [last] && last in deps && forall d :: d in front ==> d in deps;
      assert items[..|items| - 1] == [""] + DepFields(front);
      DepListOfFields(items[..|items| - 1], front);
      NumberOfDigits(last, UINT64);
    }
  }

  lemma DepsRoundTrip(deps: seq<nat>)
    requires forall d :: d in deps ==> d < UINT64
    ensures CommasOnly(DepText(deps)) && DepList(Split(DepText(deps), ',')) == Some(deps)
  {
    DepFieldsPlain(deps);
    PrefixedPlain(DepFields(deps));
    SplitPrefixed("", DepFields(deps), ',');
    assert "" + DepText(deps) == DepText(deps);
    DepListOfFields([""] + DepFields(deps), deps);
  }

  lemma InfoSplit(r: Record)
    ensures CommasOnly(InfoText(r)) && Split(InfoText(r), ',') == [Digits(r.seqNum)] + InfoFields(r)
  {
    InfoFieldsPlain(r);
    PrefixedPlain(InfoFields(r));
    SplitPrefixed(Digits(r.seqNum), InfoFields(r), ',');
  }

  lemma LineSplit(r: Record)
    ensures Split(Strip(LineText(r) + "\n"), ':') == [InfoText(r), DepText(r.robDep), DepText(r.regDep)]
    ensures Strip(DepText(r.robDep)) == DepText(r.robDep)
  {
    InfoSplit(r);
    DepFieldsPlain(r.robDep);
    DepFieldsPlain(r.regDep);
    PrefixedPlain(DepFields(r.robDep));
    PrefixedPlain(DepFields(r.regDep));
    StripNewline(LineText(r));
    StripNothing(DepText(r.robDep));
    SplitWhole(InfoText(r), ':');
    SplitPart(InfoText(r), DepText(r.robDep), ':');
    SplitPart(InfoText(r) + [':'] + DepText(r.robDep), DepText(r.regDep), ':');
  }

  /** The information part of a printed line. */
  lemma InfoReadsBack(r: Record)
    requires InRange(r)
    ensures var p, q := InfoParsed([Digits(r.seqNum)] + InfoFields(r)), ReadsBackAs(r);
            p == if q.Ok? then Ok(q.r.(robDep := [], regDep := [])) else q
  {
    var info := [Digits(r.seqNum)] + InfoFields(r);
    assert info[3] == NameOf(r.kind);
    HeadRoundTrip(r);
    if r.kind == Comp {
      CompReadsBack(r);
    } else if r.kind != Invalid {
      if r.pAddr.Some? && r.size.Some? && r.flags.Some? { MemoryReadsBack(r); }
    }
  }

  lemma HeadRoundTrip(r: Record)
    requires InRange(r)
    ensures Number(Digits(r.seqNum), UINT64) == Some(r.seqNum)
    ensures Number(Digits(GetOr(r.pc, 0)), UINT64) == Some(GetOr(r.pc, 0))
    ensures Number(Digits(GetOr(r.weight, 1)), UINT32) == Some(GetOr(r.weight, 1))
    ensures TypeNamed(NameOf(r.kind)) == Some(r.kind)
  {
    NumberOfDigits(r.seqNum, UINT64);
    NumberOfDigits(GetOr(r.pc, 0), UINT64);
    NumberOfDigits(GetOr(r.weight, 1), UINT32);
    NamesPlain(r.kind);
  }

  lemma CompReadsBack(r: Record)
    requires InRange(r) && r.kind == Comp
    ensures InfoParsed([Digits(r.seqNum)] + InfoFields(r)) == Ok(ReadsBackAs(r).r.(robDep := [], regDep := []))
  {
    HeadRoundTrip(r);
    NumberOfDigits(FirstNumber(r), UINT64);
    InfoFieldsAre(r);
  }

  lemma InfoFieldsAre(r: Record)
    ensures var f := InfoFields(r);
            |f| >= 4 && f[0] == Digits(GetOr(r.pc, 0)) && f[1] == Digits(GetOr(r.weight, 1)) && f[2] == NameOf(r.kind)
            && f[3] == Digits(FirstNumber(r))
  {
  }

  lemma MemoryReadsBack(r: Record)
    requires InRange(r) && (r.kind == Load || r.kind == Store) && r.pAddr.Some? && r.size.Some? && r.flags.Some?
    ensures InfoParsed([Digits(r.seqNum)] + InfoFields(r)) == Ok(ReadsBackAs(r).r.(robDep := [], regDep := []))
  {
    HeadRoundTrip(r);
    var info, tail := [Digits(r.seqNum)] + InfoFields(r), MemoryTail(r);
    TailRoundTrip(r);
    assert info == [Digits(r.seqNum), Digits(GetOr(r.pc, 0)), Digits(GetOr(r.weight, 1)), NameOf(r.kind)] + tail by {
      MemoryInfo(r);
    }
    assert info[4..8] == tail;
  }

  function MemoryTail(r: Record): seq<string>
    requires r.pAddr.Some? && r.size.Some? && r.flags.Some?
  {
    [Digits(r.pAddr.value), Digits(r.size.value), Digits(r.flags.value), Digits(r.compDelay)]
  }

  lemma MemoryInfo(r: Record)
    requires r.pAddr.Some? && r.size.Some? && r.flags.Some?
    ensures InfoFields(r) == [Digits(GetOr(r.pc, 0)), Digits(GetOr(r.weight, 1)), NameOf(r.kind)] + MemoryTail(r)
  {
  }

  lemma TailRoundTrip(r: Record)
    requires InRange(r) && r.pAddr.Some? && r.size.Some? && r.flags.Some?
    ensures MemoryFields(MemoryTail(r)) == Some((r.pAddr.value, r.size.value, r.flags.value, r.compDelay))
  {
    NumberOfDigits(r.pAddr.value, UINT64);
    NumberOfDigits(r.size.value, UINT32);
    NumberOfDigits(r.flags.value, UINT32);
    NumberOfDigits(r.compDelay, UINT64);
  }

  /** The printed line of any record reads back as `ReadsBackAs` says. */
  lemma LineReadsBack(r: Record)
    requires InRange(r)
    ensures LineParsed(LineText(r) + "\n") == ReadsBackAs(r)
  {
    LineSplit(r);
    InfoSplit(r);
    InfoReadsBack(r);
    DepsRoundTrip(r.robDep);
    DepsRoundTrip(r.regDep);
  }

  /** It is the record itself, with its defaults filled in, exactly when the record is well shaped
      and has no virtual address and no address space. */
  lemma LineRoundTripIff(r: Record)
    requires InRange(r)
    ensures LineParsed(LineText(r) + "\n") == Ok(Normalized(r)) <==> Survives(r)
  {
    LineReadsBack(r);
  }

  /** A load as the simulator writes it when it traces virtual addresses: the virtual address is lost on the way. */
  lemma VirtualAddressIsLost()
    ensures var load := Record(7, Some(64), Some(1), Load, Some(4096), Some(8), Some(0), 2, [3], [5], Some(8192), None);
            InRange(load) && WellShaped(load) && LineParsed(LineText(load) + "\n") == Ok(load.(vAddr := None))
  {
    LineReadsBack(Record(7, Some(64), Some(1), Load, Some(4096), Some(8), Some(0), 2, [3], [5], Some(8192), None));
  }

  /** Whatever is read from a line is well shaped and in range, with all defaults explicit. */
  lemma ParsedIsNormal(line: string)
    ensures var p := LineParsed(line); p.Ok? ==> InRange(p.r) && Survives(p.r) && Normalized(p.r) == p.r
  {
    var parts := Split(Strip(line), ':');
    if |parts| == 3 {
      DepListInRange(Split(Strip(parts[1]), ','));
      DepListInRange(Split(parts[2], ','));
    }
  }

  lemma {:induction false} DepListInRange(items: seq<string>)
    ensures DepList(items).Some? ==> forall d :: d in DepList(items).value ==> d < UINT64
  {
    if items != [] { DepListInRange(items[..|items| - 1]); }
  }

  /** Printing what was read gives a line that reads as the same record: a second pass changes nothing. */
  lemma PrintingIsIdempotent(line: string)
    requires LineParsed(line).Ok?
    ensures LineParsed(LineText(LineParsed(line).r) + "\n") == LineParsed(line)
  {
    ParsedIsNormal(line);
    LineRoundTripIff(LineParsed(line).r);
  }

  // ---------- the format ----------

  /** The name of the type in the message definition. */
  function TypeText(r: Record): string {
    if r.kind == Load then "LOAD" else if r.kind == Store then "STORE" else if r.kind == Comp then "COMP" else "INVALID"
  }

  /** The line of a load or store: number, counter, weight, type, address, size, flags, delay, then both lists. */
  lemma MemoryFormat(r: Record)
    requires r.pAddr.Some? && r.size.Some? && r.flags.Some?
    ensures LineText(r) ==
            Digits(r.seqNum)
            + ("," + Digits(if r.pc.Some? then r.pc.value else 0) + "," + Digits(if r.weight.Some? then r.weight.value else 1)
               + "," + TypeText(r) + "," + Digits(r.pAddr.value) + "," + Digits(r.size.value) + "," + Digits(r.flags.value)
               + "," + Digits(r.compDelay))
            + ":" + DepText(r.robDep) + ":" + DepText(r.regDep)
  {
    MemoryInfo(r);
    assert InfoFields(r) == [Digits(GetOr(r.pc, 0)), Digits(GetOr(r.weight, 1)), NameOf(r.kind), Digits(r.pAddr.value),
                             Digits(r.size.value), Digits(r.flags.value), Digits(r.compDelay)];
    PrefixedSeven(Digits(GetOr(r.pc, 0)), Digits(GetOr(r.weight, 1)), NameOf(r.kind), Digits(r.pAddr.value),
                  Digits(r.size.value), Digits(r.flags.value), Digits(r.compDelay));
  }

  /** The line of a computation. */
  lemma CompFormat(r: Record)
    requires r.pAddr.None? && r.size.None? && r.flags.None?
    ensures LineText(r) ==
            Digits(r.seqNum)
            + ("," + Digits(if r.pc.Some? then r.pc.value else 0) + "," + Digits(if r.weight.Some? then r.weight.value else 1)
               + "," + TypeText(r) + "," + Digits(r.compDelay))
            + ":" + DepText(r.robDep) + ":" + DepText(r.regDep)
  {
    assert InfoFields(r) == [Digits(GetOr(r.pc, 0)), Digits(GetOr(r.weight, 1)), NameOf(r.kind), Digits(r.compDelay)];
    PrefixedFour(Digits(GetOr(r.pc, 0)), Digits(GetOr(r.weight, 1)), NameOf(r.kind), Digits(r.compDelay));
  }

  /** A list of dependencies: each behind a comma. */
  lemma DepFormat(deps: seq<nat>, d: nat)
    ensures DepText([]) == "" && DepText(deps + [d]) == DepText(deps) + "," + Digits(d)
  {
    assert DepFields([]) == [] && DepFields(deps + [d]) == DepFields(deps) + [Digits(d)];
    PrefixedNext(DepFields(deps), Digits(d));
  }

  lemma OneField(f: string)
    ensures Prefixed([f], ',') == "," + f
  {
    assert [f][..0] == [];
  }

  lemma PrefixedTwo(a: string, b: string)
    ensures Prefixed([a, b], ',') == "," + a + "," + b
  {
    OneField(a);
    assert [a, b] == [a] + [b];
    PrefixedNext([a], b);
  }

  lemma PrefixedFour(a: string, b: string, c: string, d: string)
    ensures Prefixed([a, b, c, d], ',') == "," + a + "," + b + "," + c + "," + d
  {
    PrefixedTwo(a, b);
    assert [a, b, c] == [a, b] + [c] && [a, b, c, d] == [a, b, c] + [d];
    PrefixedNext([a, b], c);
    PrefixedNext([a, b, c], d);
  }

  lemma PrefixedSeven(a: string, b: string, c: string, d: string, e: string, f: string, g: string)
    ensures Prefixed([a, b, c, d, e, f, g], ',') == "," + a + "," + b + "," + c + "," + d + "," + e + "," + f + "," + g
  {
    PrefixedFour(a, b, c, d);
    assert [a, b, c, d, e] == [a, b, c, d] + [e] && [a, b, c, d, e, f] == [a, b, c, d, e] + [f];
    assert [a, b, c, d, e, f, g] == [a, b, c, d, e, f] + [g];
    PrefixedNext([a, b, c, d], e);
    PrefixedNext([a, b, c, d, e], f);
    PrefixedNext([a, b, c, d, e, f], g);
  }

  /** Fields behind the last one that is needed are ignored. */
  lemma SurplusIgnored(info: seq<string>, extra: seq<string>)
    requires |info| >= 8 || (|info| >= 5 && info[3] == "COMP")
    ensures InfoParsed(info + extra) == InfoParsed(info)
  {
    if |info| >= 8 { assert (info + extra)[4..8] == info[4..8]; }
  }

  /** A record without a usable type is refused by its type, once its numbers can be read. */
  lemma TypeRefused(info: seq<string>)
    requires |info| >= 4
    requires Number(info[0], UINT64).Some? && Number(info[1], UINT64).Some? && Number(info[2], UINT32).Some?
    ensures info[3] == "INVALID" ==> InfoParsed(info) == InvalidType
    ensures info[3] != "INVALID" && info[3] != "LOAD" && info[3] != "STORE" && info[3] != "COMP" ==>
              InfoParsed(info) == UnsupportedType(info[3])
  {
  }

  /** Empty items in a list of dependencies are ignored, wherever they are. */
  lemma {:induction false} EmptyItemIgnored(items: seq<string>, k: nat)
    requires k <= |items|
    ensures DepList(items[..k] + [""] + items[k..]) == DepList(items)
  {
    var all := items[..k] + [""] + items[k..];
    if k == |items| {
      assert all[..|all| - 1] == items;
    } else {
      var front := items[..|items| - 1];
      assert all[..|all| - 1] == front[..k] + [""] + front[k..];
      EmptyItemIgnored(front, k);
    }
  }

  // ---------- whole traces ----------

  function LineTexts(rs: seq<Record>): seq<string> {
    if rs == [] then [] else LineTexts(rs[..|rs| - 1]) + [LineText(rs[|rs| - 1])]
  }

  function TraceText(rs: seq<Record>): string { Concat(Terminated(LineTexts(rs))) }

  /** Writes all records, line by line. */
  method DecodeTrace(rs: seq<Record>) returns (text: string)
    ensures text == TraceText(rs)
  {
    text := "";
    for i := 0 to |rs|
      invariant text == TraceText(rs[..i])
    {
      var line := PrintRecord(rs[i]);
      assert rs[..i + 1][..i] == rs[..i];
      TextNext(LineTexts(rs[..i]), LineText(rs[i]));
      text := text + line;
    }
    assert rs[..|rs|] == rs;
  }

  /** The conversion stops at the first line it cannot use. */
  datatype Conversion = Converted(rs: seq<Record>) | FailedAt(line: nat, why: Parsed)

  function Convert(lines: seq<string>): Conversion {
    if lines == [] then Converted([])
    else
      var front := Convert(lines[..|lines| - 1]);
      if front.FailedAt? then front
      else
        var p := LineParsed(lines[|lines| - 1]);
        if p.Ok? then Converted(front.rs + [p.r]) else FailedAt(|lines| - 1, p)
  }

  /** Reads a whole trace file. */
  method EncodeTrace(text: string) returns (c: Conversion)
    ensures c == Convert(Lines(text)) && Collected(AllParsed(Lines(text)), c)
  {
    var lines, rs := Lines(text), [];
    for i := 0 to |lines|
      invariant Convert(lines[..i]) == Converted(rs)
    {
      var p := ParseLine(lines[i]);
      ConvertNext(lines, i, rs, p);
      if !p.Ok? {
        ConvertIs(lines);
        return FailedAt(i, p);
      }
      rs := rs + [p.r];
    }
    assert lines[..|lines|] == lines;
    ConvertIs(lines);
    return Converted(rs);
  }

  lemma ConvertNext(lines: seq<string>, i: nat, rs: seq<Record>, p: Parsed)
    requires i < |lines| && Convert(lines[..i]) == Converted(rs) && p == LineParsed(lines[i])
    ensures if p.Ok? then Convert(lines[..i + 1]) == Converted(rs + [p.r]) else Convert(lines) == FailedAt(i, p)
  {
    assert lines[..i + 1][..i] == lines[..i];
    if !p.Ok? { StaysFailed(lines, i + 1); }
  }

  lemma {:induction false} StaysFailed(lines: seq<string>, k: nat)
    requires k <= |lines| && Convert(lines[..k]).FailedAt?
    ensures Convert(lines) == Convert(lines[..k])
  {
    if k == |lines| {
      assert lines[..k] == lines;
    } else {
      assert lines[..|lines| - 1][..k] == lines[..k];
      StaysFailed(lines[..|lines| - 1], k);
    }
  }

  function AllParsed(lines: seq<string>): seq<Parsed> {
    if lines == [] then [] else AllParsed(lines[..|lines| - 1]) + [LineParsed(lines[|lines| - 1])]
  }

  lemma {:induction false} AllParsedAt(lines: seq<string>, i: nat)
    requires i < |lines|
    ensures |AllParsed(lines)| == |lines| && AllParsed(lines)[i] == LineParsed(lines[i])
  {
    var front := lines[..|lines| - 1];
    if i < |front| { AllParsedAt(front, i); } else if front != [] { AllParsedAt(front, 0); }
  }

  /** What a conversion of parsed lines must be: all of them if all are usable, else the first that is not. */
  ghost predicate Collected(ps: seq<Parsed>, c: Conversion) {
    match c
    case Converted(rs) => |rs| == |ps| && forall i :: 0 <= i < |ps| ==> ps[i] == Ok(rs[i])
    case FailedAt(k, why) => k < |ps| && ps[k] == why && !why.Ok? && forall i :: 0 <= i < k ==> ps[i].Ok?
  }

  lemma CollectNext(ps: seq<Parsed>, c: Conversion, p: Parsed)
    requires Collected(ps, c)
    ensures Collected(ps + [p], if c.FailedAt? then c else if p.Ok? then Converted(c.rs + [p.r]) else FailedAt(|ps|, p))
  {
  }

  /** A text is converted line by line, up to the first line that cannot be used. */
  lemma {:induction false} ConvertIs(lines: seq<string>)
    ensures |AllParsed(lines)| == |lines| && Collected(AllParsed(lines), Convert(lines))
  {
    if lines != [] {
      var n := |lines| - 1;
      ConvertIs(lines[..n]);
      CollectNext(AllParsed(lines[..n]), Convert(lines[..n]), LineParsed(lines[n]));
    }
  }

  function AllNormalized(rs: seq<Record>): seq<Record> {
    if rs == [] then [] else AllNormalized(rs[..|rs| - 1]) + [Normalized(rs[|rs| - 1])]
  }

  lemma {:induction false} LineTextsAreLines(rs: seq<Record>)
    ensures forall l :: l in LineTexts(rs) ==> '\n' !in l
  {
    if rs != [] {
      LineTextsAreLines(rs[..|rs| - 1]);
      NoNewline(rs[|rs| - 1]);
    }
  }

  lemma NoNewline(r: Record)
    ensures '\n' !in LineText(r)
  {
    InfoSplit(r);
    DepFieldsPlain(r.robDep);
    DepFieldsPlain(r.regDep);
    PrefixedPlain(DepFields(r.robDep));
    PrefixedPlain(DepFields(r.regDep));
  }

  lemma {:induction false} ConvertLines(rs: seq<Record>)
    requires forall r :: r in rs ==> InRange(r)
    ensures Convert(Terminated(LineTexts(rs))) == Converted(AllNormalized(rs)) <==> forall r :: r in rs ==> Survives(r)
  {
    if rs != [] {
      var front, last := rs[..|rs| - 1], rs[|rs| - 1];
      assert last in rs && forall r :: r in rs <==> r in front || r == last;
      ConvertLines(front);
      var lines := Terminated(LineTexts(rs));
      assert lines == Terminated(LineTexts(front)) + [LineText(last) + "\n"] by {
        assert LineTexts(rs)[..|LineTexts(rs)| - 1] == LineTexts(front);
      }
      assert lines[..|lines| - 1] == Terminated(LineTexts(front));
      assert LineParsed(LineText(last) + "\n") == Ok(Normalized(last)) <==> Survives(last) by { LineRoundTripIff(last); }
      LastOf(AllNormalized(front), Normalized(last), Convert(lines));
    }
  }

  lemma LastOf(front: seq<Record>, last: Record, c: Conversion)
    ensures c == Converted(front + [last]) <==>
            c.Converted? && c.rs != [] && c.rs[..|c.rs| - 1] == front && c.rs[|c.rs| - 1] == last
  {
    if c.Converted? && c.rs != [] { assert c.rs == c.rs[..|c.rs| - 1] + [c.rs[|c.rs| - 1]]; }
  }

  /** Encoding the text that the decoder wrote returns every record, with defaults filled
      in, exactly when all records are well shaped and have neither a virtual address nor an address space. */
  lemma TraceRoundTripIff(rs: seq<Record>)
    requires forall r :: r in rs ==> InRange(r)
    ensures Convert(Lines(TraceText(rs))) == Converted(AllNormalized(rs)) <==> forall r :: r in rs ==> Survives(r)
  {
    LineTextsAreLines(rs);
    LinesOfTerminated(LineTexts(rs));
    ConvertLines(rs);
  }
}
