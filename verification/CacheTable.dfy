/** The cache descriptors of a processor (CommonLibrary/cpuid.c): the table unpacked from the
    registers that the processor's queries answer with, and the cache sizes looked up in it. */
module CacheTable {
  import opened Common

  /** What one query leaves in the registers. */
  datatype Registers = Registers(eax: bv32, ebx: bv32, ecx: bv32, edx: bv32)

  /** Register `i` of an answer, without the count in the lowest byte of the first. */
  function Register(a: Registers, i: nat): bv32
    requires i < 4
  {
    match i
    case 0 => a.eax & 0xFFFFFF00
    case 1 => a.ebx
    case 2 => a.ecx
    case 3 => a.edx
  }

  /** The highest bit says that a register holds no descriptors. */
  predicate Valid(r: bv32) {
    r & 0x80000000 == 0
  }

  /** The byte with index `j` of a register, from the highest down. */
  function Field(r: bv32, j: nat): bv8
    requires j < 4
  {
    if !Valid(r) then 0
    else
      match j
      case 0 => ((r & 0xFF000000) >> 24) as bv8
      case 1 => ((r & 0x00FF0000) >> 16) as bv8
      case 2 => ((r & 0x0000FF00) >> 8) as bv8
      case 3 => (r & 0x000000FF) as bv8
  }

  /** Cell `k` of the sixteen that an answer fills. */
  function RowCell(a: Registers, k: nat): bv8
    requires k < 16
  {
    Field(Register(a, k / 4), k % 4)
  }

  function CellOf(answers: seq<Registers>, k: nat): bv8
    requires k < 16 * |answers|
  {
    RowCell(answers[k / 16], k % 16)
  }

  /** The table that the answers unpack to. */
  function TableOf(answers: seq<Registers>): (t: seq<bv8>)
    ensures |t| == 16 * |answers|
  {
    seq(16 * |answers|, k requires 0 <= k < 16 * |answers| => CellOf(answers, k))
  }

  function Joined(a: bv8, b: bv8, c: bv8, d: bv8): bv32 {
    (a as bv32 << 24) | (b as bv32 << 16) | (c as bv32 << 8) | (d as bv32)
  }

  lemma FieldsJoin(r: bv32)
    ensures Joined(Field(r, 0), Field(r, 1), Field(r, 2), Field(r, 3)) == if Valid(r) then r else 0
  {
  }

  lemma CellIsField(answers: seq<Registers>, q: nat, i: nat, j: nat)
    requires q < |answers| && i < 4 && j < 4
    ensures TableOf(answers)[16 * q + 4 * i + j] == Field(Register(answers[q], i), j)
  {
    hide Field, Register;
    var k := 16 * q + 4 * i + j;
    assert k / 16 == q && k % 16 == 4 * i + j;
  }

  /** Nothing is lost or moved: the four cells of each register of each answer, joined from the
      highest byte down, are the register if it is valid, and zero if it is not. */
  lemma TableJoinsToRegisters(answers: seq<Registers>, q: nat, i: nat)
    requires q < |answers| && i < 4
    ensures var t, k, r := TableOf(answers), 16 * q + 4 * i, Register(answers[q], i);
      Joined(t[k], t[k + 1], t[k + 2], t[k + 3]) == if Valid(r) then r else 0
  {
    hide TableOf, Field, Joined, Valid;
    CellIsField(answers, q, i, 0);
    CellIsField(answers, q, i, 1);
    CellIsField(answers, q, i, 2);
    CellIsField(answers, q, i, 3);
    FieldsJoin(Register(answers[q], i));
  }

  /** Register by register; the count in the lowest byte of the first is left out. */
  lemma AnswerInTable(answers: seq<Registers>, q: nat)
    requires q < |answers|
    ensures var t, k, a := TableOf(answers), 16 * q, answers[q];
      && Joined(t[k], t[k + 1], t[k + 2], t[k + 3]) ==
         (if a.eax & 0x80000000 == 0 then a.eax & 0xFFFFFF00 else 0)
      && Joined(t[k + 4], t[k + 5], t[k + 6], t[k + 7]) == (if a.ebx & 0x80000000 == 0 then a.ebx else 0)
      && Joined(t[k + 8], t[k + 9], t[k + 10], t[k + 11]) == (if a.ecx & 0x80000000 == 0 then a.ecx else 0)
      && Joined(t[k + 12], t[k + 13], t[k + 14], t[k + 15]) == (if a.edx & 0x80000000 == 0 then a.edx else 0)
  {
    hide TableOf, Joined;
    TableJoinsToRegisters(answers, q, 0);
    TableJoinsToRegisters(answers, q, 1);
    TableJoinsToRegisters(answers, q, 2);
    TableJoinsToRegisters(answers, q, 3);
    assert (answers[q].eax & 0xFFFFFF00) & 0x80000000 == answers[q].eax & 0x80000000;
  }

  // ---- Descriptors -----------------------------------------------------------------------------

  datatype Level = L2 | L3

  /** The descriptors that `check_for_l2_cache` and `check_for_l3_cache` look for. */
  predicate Listed(level: Level, d: bv8) {
    match level
    case L2 =>
      || 0x39 <= d <= 0x3E || 0x41 <= d <= 0x45 || 0x78 <= d <= 0x7D || 0x82 <= d <= 0x87 || d == 0x7F
    case L3 =>
      || d == 0x22 || d == 0x23 || d == 0x25 || d == 0x29 || d == 0x46 || d == 0x47 || 0x49 <= d <= 0x4D
  }

  /** The sizes in kilobytes that `get_l2_cache` and `get_l3_cache` give them, or 0. */
  function SizeOf(level: Level, d: bv8): nat {
    match level
    case L2 =>
      if d == 0x39 || d == 0x3B || d == 0x41 || d == 0x79 then 128
      else if d == 0x3A then 192
      else if d == 0x3C || d == 0x42 || d == 0x7A || d == 0x82 then 256
      else if d == 0x3D then 384
      else if d == 0x3E || d == 0x43 || d == 0x7B || d == 0x7F || d == 0x83 || d == 0x86 then 512
      else if d == 0x44 || d == 0x78 || d == 0x7C || d == 0x84 || d == 0x87 then 1024
      else if d == 0x45 || d == 0x7D || d == 0x85 then 2048
      else 0
    case L3 =>
      if d == 0x22 then 512
      else if d == 0x23 then 1024
      else if d == 0x25 then 2048
      else if d == 0x4A then 6144
      else if d == 0x29 || d == 0x46 || d == 0x49 then 4096
      else if d == 0x47 || d == 0x4B then 8192
      else if d == 0x4C then 12288
      else if d == 0x4D then 16384
      else 0
  }

  /** The two lists are of the same descriptors. */
  lemma ListedHasSize(level: Level, d: bv8)
    ensures Listed(level, d) <==> SizeOf(level, d) > 0
  {
  }

  /** Which descriptors have which size, size by size. */
  lemma DescriptorsOfSize(d: bv8)
    ensures SizeOf(L2, d) == 128 <==> d in {0x39, 0x3B, 0x41, 0x79}
    ensures SizeOf(L2, d) == 192 <==> d in {0x3A}
    ensures SizeOf(L2, d) == 256 <==> d in {0x3C, 0x42, 0x7A, 0x82}
    ensures SizeOf(L2, d) == 384 <==> d in {0x3D}
    ensures SizeOf(L2, d) == 512 <==> d in {0x3E, 0x43, 0x7B, 0x7F, 0x83, 0x86}
    ensures SizeOf(L2, d) == 1024 <==> d in {0x44, 0x78, 0x7C, 0x84, 0x87}
    ensures SizeOf(L2, d) == 2048 <==> d in {0x45, 0x7D, 0x85}
    ensures SizeOf(L2, d) in {0, 128, 192, 256, 384, 512, 1024, 2048}
    ensures SizeOf(L3, d) == 512 <==> d in {0x22}
    ensures SizeOf(L3, d) == 1024 <==> d in {0x23}
    ensures SizeOf(L3, d) == 2048 <==> d in {0x25}
    ensures SizeOf(L3, d) == 4096 <==> d in {0x29, 0x46, 0x49}
    ensures SizeOf(L3, d) == 6144 <==> d in {0x4A}
    ensures SizeOf(L3, d) == 8192 <==> d in {0x47, 0x4B}
    ensures SizeOf(L3, d) == 12288 <==> d in {0x4C}
    ensures SizeOf(L3, d) == 16384 <==> d in {0x4D}
    ensures SizeOf(L3, d) in {0, 512, 1024, 2048, 4096, 6144, 8192, 12288, 16384}
  {
  }

  ghost predicate HasCache(level: Level, t: seq<bv8>) {
    exists k :: 0 <= k < |t| && SizeOf(level, t[k]) > 0
  }

  /** Cell `k` is the first with a size. */
  ghost predicate FirstSized(level: Level, t: seq<bv8>, k: nat) {
    k < |t| && SizeOf(level, t[k]) > 0 && forall j :: 0 <= j < k ==> SizeOf(level, t[j]) == 0
  }

  // ---- In place --------------------------------------------------------------------------------

  /** The cells of one answer, byte by byte over the four registers. */
  method FillRow(table: array<bv8>, start: nat, a: Registers)
    requires start + 16 <= table.Length
    modifies table
    ensures forall k :: 0 <= k < 16 ==> table[start + k] == RowCell(a, k)
    ensures forall k :: 0 <= k < start ==> table[k] == old(table[k])
  {
    hide Field, Register;
    for j := 0 to 4
      invariant forall k :: 0 <= k < 16 && k % 4 < j ==> table[start + k] == RowCell(a, k)
      invariant forall k :: 0 <= k < start ==> table[k] == old(table[k])
    {
      table[start + j] := Field(Register(a, 0), j);
      table[start + j + 4] := Field(Register(a, 1), j);
      table[start + j + 8] := Field(Register(a, 2), j);
      table[start + j + 12] := Field(Register(a, 3), j);
    }
  }

  /** `get_cache_info`, on a processor that answers. */
  method GetCacheInfo(table: array<bv8>, answers: seq<Registers>)
    requires table.Length == 16 * |answers|
    modifies table
    ensures table[..] == TableOf(answers)
  {
    hide RowCell;
    for q := 0 to |answers|
      invariant forall k :: 0 <= k < 16 * q ==> table[k] == CellOf(answers, k)
    {
      FillRow(table, 16 * q, answers[q]);
      forall k | 16 * q <= k < 16 * q + 16
        ensures table[k] == CellOf(answers, k)
      {
        assert table[16 * q + (k - 16 * q)] == RowCell(answers[q], k - 16 * q);
        assert k / 16 == q && k % 16 == k - 16 * q;
      }
    }
  }

  /** `check_for_l2_cache` and `check_for_l3_cache`. Another maker's processor is not queried. */
  method CheckForCache(level: Level, intel: bool, answers: seq<Registers>) returns (found: bool)
    ensures found <==> intel && HasCache(level, TableOf(answers))
  {
    hide SizeOf, Listed, CellOf;
    found := false;
    if intel {
      var table := new bv8[16 * |answers|](_ => 0);
      if |answers| >= 1 {
        GetCacheInfo(table, answers);
        for i := 0 to table.Length
          invariant table[..] == TableOf(answers)
          invariant found <==> exists k :: 0 <= k < i && SizeOf(level, TableOf(answers)[k]) > 0
        {
          ListedHasSize(level, table[i]);
          assert table[i] == TableOf(answers)[i];
          if Listed(level, table[i]) {
            found := true;
          }
        }
      }
    }
  }

  /** `get_l2_cache` and `get_l3_cache`, which check first and then query again: `before` are the
      answers to the check. `None` is the end of the function without a return value. */
  method GetCache(level: Level, intel: bool, before: seq<Registers>, answers: seq<Registers>)
    returns (size: Option<nat>)
    ensures !(intel && HasCache(level, TableOf(before))) ==> size == Some(0)
    ensures intel && HasCache(level, TableOf(before)) ==>
      && (size.None? <==> !HasCache(level, TableOf(answers)))
      && (size.Some? ==>
            exists k: nat :: FirstSized(level, TableOf(answers), k) && size.value == SizeOf(level, TableOf(answers)[k]))
    // the same answers both times: the check is right, and there is always a result
    ensures before == answers ==>
      size.Some? && (size.value > 0 <==> intel && HasCache(level, TableOf(answers)))
  {
    hide SizeOf, CellOf;
    var found := CheckForCache(level, intel, before);
    if !found {
      return Some(0);
    }
    var table := new bv8[16 * |answers|](_ => 0);
    if |answers| >= 1 {
      GetCacheInfo(table, answers);
      ghost var t := TableOf(answers);
      for i := 0 to table.Length
        invariant table[..] == t
        invariant forall j :: 0 <= j < i ==> SizeOf(level, t[j]) == 0
      {
        assert table[i] == t[i];
        if SizeOf(level, table[i]) > 0 {
          assert FirstSized(level, t, i);
          return Some(SizeOf(level, table[i]));
        }
      }
    }
    size := None;
  }
}
