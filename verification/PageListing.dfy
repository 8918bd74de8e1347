/** The text in which the kernel lists a zone's blocks (`proc_allocate_pages`,
    PageAllocator/page_alloc.c), and the user-space parser that looks a block up in it
    (`block_size`, memoryTest/pageAllocator.c). */
module PageListing {
  import opened Common
  import opened PageState

  const BLOCK_READER_LENGTH: nat := (21 + 4) * 32 + 1

  // ---- Numbers -----------------------------------------------------------------------------

  function Digit(d: nat): char
    requires d < 10
  {
    "0123456789"[d]
  }

  function DigitValue(c: char): (d: nat)
    ensures d <= 16 && (d < 10 <==> '0' <= c <= '9')
  {
    if '0' <= c <= '9' then c as int - '0' as int
    else if 'a' <= c <= 'f' then c as int - 'a' as int + 10
    else if 'A' <= c <= 'F' then c as int - 'A' as int + 10
    else 16
  }

  /** `%u` and, for a number that is not negative, `%i`. */
  function Decimal(n: nat): (s: string)
    ensures s != ""
  {
    if n < 10 then [Digit(n)] else Decimal(n / 10) + [Digit(n % 10)]
  }

  function ValueOf(s: string, base: nat): nat {
    if s == "" then 0 else ValueOf(s[..|s| - 1], base) * base + DigitValue(s[|s| - 1])
  }

  /** The length of the longest run of digits at the start of the text. */
  function DigitRun(s: string, base: nat): (n: nat)
    ensures n <= |s|
    ensures base <= 16 ==> (forall i :: 0 <= i < n ==> DigitValue(s[i]) < base)
    ensures base <= 16 && n < |s| ==> DigitValue(s[n]) >= base
  {
    if s == "" || DigitValue(s[0]) >= base then 0 else 1 + DigitRun(s[1..], base)
  }

  datatype Scan = Nothing | Number(value: int, rest: string)

  predicate Blank(c: char) {
    c == ' ' || '\t' <= c <= '\r'
  }

  function SkipBlanks(s: string): string {
    if s != "" && Blank(s[0]) then SkipBlanks(s[1..]) else s
  }

  predicate Signed(s: string) {
    s != "" && (s[0] == '-' || s[0] == '+')
  }

  function ScanDigits(s: string, base: nat): (r: Scan)
    ensures r.Number? ==> r.value >= 0
  {
    var n := DigitRun(s, base);
    if n == 0 then Nothing else Number(ValueOf(s[..n], base), s[n..])
  }

  /** `%u`: blanks, a sign, decimal digits. A negative number wraps. */
  function ScanUnsigned(s: string): (r: Scan)
    ensures r.Number? ==> r.value >= 0
  {
    var t := SkipBlanks(s);
    if !Signed(t) then ScanDigits(t, 10)
    else
      match ScanDigits(t[1..], 10)
      case Nothing => Nothing
      case Number(v, rest) => Number(if t[0] == '-' then -v % WORD else v, rest)
  }

  /** The digits of `%i`: hexadecimal after "0x", octal after "0", else decimal. */
  function ScanAnyBase(s: string): Scan {
    if |s| >= 2 && s[0] == '0' && (s[1] == 'x' || s[1] == 'X') then ScanDigits(s[2..], 16)
    else ScanDigits(s, if s != "" && s[0] == '0' then 8 else 10)
  }

  /** `%i`. */
  function ScanInteger(s: string): Scan {
    var t := SkipBlanks(s);
    if !Signed(t) then ScanAnyBase(t)
    else
      match ScanAnyBase(t[1..])
      case Nothing => Nothing
      case Number(v, rest) => Number(if t[0] == '-' then -v else v, rest)
  }

  lemma {:induction false} DecimalValue(n: nat)
    ensures ValueOf(Decimal(n), 10) == n
    ensures forall i :: 0 <= i < |Decimal(n)| ==> DigitValue(Decimal(n)[i]) < 10
    ensures Decimal(n)[0] == '0' <==> n == 0
  {
    if n < 10 {
      assert ValueOf([Digit(n)][..0], 10) == 0;
    } else {
      DecimalValue(n / 10);
      var d := Decimal(n);
      assert d[..|d| - 1] == Decimal(n / 10);
      assert d[0] == Decimal(n / 10)[0];
    }
  }

  /** A run of digits before anything else is what is scanned. */
  lemma {:induction false} DigitRunStops(d: string, tail: string, base: nat)
    requires base <= 16 && forall i :: 0 <= i < |d| ==> DigitValue(d[i]) < base
    requires tail != "" ==> DigitValue(tail[0]) >= base
    ensures DigitRun(d + tail, base) == |d|
  {
    if d == "" {
      assert d + tail == tail;
    } else {
      DigitRunStops(d[1..], tail, base);
      assert (d + tail)[1..] == d[1..] + tail;
    }
  }

  lemma DigitsScan(d: string, tail: string, base: nat)
    requires d != "" && base <= 16 && forall i :: 0 <= i < |d| ==> DigitValue(d[i]) < base
    requires tail != "" ==> DigitValue(tail[0]) >= base
    ensures ScanDigits(d + tail, base) == Number(ValueOf(d, base), tail)
  {
    DigitRunStops(d, tail, base);
    assert (d + tail)[..|d|] == d && (d + tail)[|d|..] == tail;
  }

  /** Printed numbers have neither blanks nor a sign, and those but 0 no leading 0. */
  lemma StartOfDecimal(n: nat, tail: string)
    ensures var s := Decimal(n) + tail;
      '0' <= s[0] <= '9' && (s[0] == '0' <==> n == 0) && SkipBlanks(s) == s && !Signed(s)
  {
    DecimalValue(n);
    assert (Decimal(n) + tail)[0] == Decimal(n)[0];
    assert DigitValue(Decimal(n)[0]) < 10;
  }

  /** A printed number, if it is not followed by a digit or by the letter of a hexadecimal
      prefix, scans back under either conversion. */
  lemma ScanDecimal(n: nat, tail: string)
    requires tail != "" ==> !('0' <= tail[0] <= '9') && tail[0] != 'x' && tail[0] != 'X'
    ensures ScanUnsigned(Decimal(n) + tail) == Number(n, tail)
    ensures ScanInteger(Decimal(n) + tail) == Number(n, tail)
  {
    hide SkipBlanks, Signed, ScanDigits, DigitRun;
    StartOfDecimal(n, tail);
    DecimalValue(n);
    DigitsScan(Decimal(n), tail, 10);
    if n == 0 {
      assert Decimal(n) == "0" && ValueOf("", 8) == 0;
      DigitsScan("0", tail, 8);
    }
  }

  function Pow10(k: nat): nat {
    if k == 0 then 1 else 10 * Pow10(k - 1)
  }

  lemma {:induction false} DecimalLength(n: nat, k: nat)
    requires k > 0 && n < Pow10(k)
    ensures |Decimal(n)| <= k
  {
    if n >= 10 {
      DecimalLength(n / 10, k - 1);
    }
  }

  // ---- The listing ---------------------------------------------------------------------------

  function Entry(i: nat, count: nat): string {
    Decimal(i) + ":" + Decimal(count)
  }

  /** The lines of the blocks from `i` on that hold pages. */
  function Listing(counts: seq<nat>, i: nat): string
    decreases |counts| - i
  {
    if i >= |counts| then ""
    else (if counts[i] != 0 then Entry(i, counts[i]) + "\n" else "") + Listing(counts, i + 1)
  }

  function Used(counts: seq<nat>, i: nat): nat
    decreases |counts| - i
  {
    if i >= |counts| then 0 else (if counts[i] != 0 then 1 else 0) + Used(counts, i + 1)
  }

  ghost predicate BlockTable(counts: seq<nat>) {
    |counts| == MAX_PAGE_BLOCKS && forall i :: 0 <= i < |counts| ==> counts[i] < WORD
  }

  /** The text fits the kernel's buffer of 14 bytes a used block and one more, and the reader's. */
  lemma {:induction false} ListingFits(counts: seq<nat>, i: nat)
    requires BlockTable(counts) && i <= MAX_PAGE_BLOCKS
    ensures |Listing(counts, i)| + 1 <= 14 * Used(counts, i) + 1
    ensures Used(counts, i) <= MAX_PAGE_BLOCKS - i
    ensures |Listing(counts, i)| < BLOCK_READER_LENGTH
    decreases MAX_PAGE_BLOCKS - i
  {
    if i < MAX_PAGE_BLOCKS {
      ListingFits(counts, i + 1);
      assert Pow10(2) == 100;
      DecimalLength(i, 2);
      assert Pow10(10) == 1_0000 * Pow10(6) && Pow10(6) == 1_0000 * Pow10(2);
      DecimalLength(counts[i], 10);
    }
  }

  lemma {:induction false} NothingToList(counts: seq<nat>, i: nat)
    requires forall k :: i <= k < |counts| ==> counts[k] == 0
    ensures Listing(counts, i) == ""
    decreases |counts| - i
  {
    if i < |counts| { NothingToList(counts, i + 1); }
  }

  /** A listing to the letter: 5 pages in block 0 and 1024 in block 2. */
  lemma ListingExample(counts: seq<nat>)
    requires |counts| == 32 && counts[0] == 5 && counts[2] == 1024
    requires forall k :: 0 <= k < 32 && k != 0 && k != 2 ==> counts[k] == 0
    ensures Listing(counts, 0) == "0:5\n2:1024\n"
  {
    NothingToList(counts, 3);
    assert Decimal(0) == "0" && Decimal(5) == "5" && Decimal(2) == "2";
    assert Decimal(1) == "1" && Decimal(10) == "10" && Decimal(102) == "102" && Decimal(1024) == "1024";
    assert Listing(counts, 2) == Entry(2, 1024) + "\n" + "";
    assert Listing(counts, 1) == "" + Listing(counts, 2);
  }

  /** `proc_allocate_pages`: the listing, with the size of the buffer that was made for it. */
  method ProcAllocatePages(counts: seq<nat>) returns (text: string, size: nat)
    requires BlockTable(counts)
    ensures text == Listing(counts, 0) && |text| + 1 <= size
  {
    var cnt: nat := 0;
    for i := 0 to MAX_PAGE_BLOCKS
      invariant cnt + Used(counts, i) == Used(counts, 0)
    {
      if counts[i] != 0 {
        cnt := cnt + 1;
      }
    }
    size := (10 + 4) * cnt + 1;
    text := "";
    for i := 0 to MAX_PAGE_BLOCKS
      invariant text + Listing(counts, i) == Listing(counts, 0)
    {
      if counts[i] != 0 {
        var extra := Entry(i, counts[i]) + "\n";
        assert text + (extra + Listing(counts, i + 1)) == (text + extra) + Listing(counts, i + 1);
        text := text + extra;
      } else {
        assert "" + Listing(counts, i + 1) == Listing(counts, i + 1);
      }
    }
    ListingFits(counts, 0);
  }

  // ---- The parser ----------------------------------------------------------------------------

  /** Where the line that starts the text ends. */
  function LineEnd(text: string): (n: nat)
    ensures n <= |text| && (forall i :: 0 <= i < n ==> text[i] != '\n') && (n < |text| ==> text[n] == '\n')
  {
    if text == "" || text[0] == '\n' then 0 else 1 + LineEnd(text[1..])
  }

  /** The tokens that repeated calls of `strtok` with "\n" find. */
  function Tokens(text: string): seq<string>
    decreases |text|
  {
    if text == "" then []
    else
      var n := LineEnd(text);
      if n == 0 then Tokens(text[1..]) else [text[..n]] + Tokens(text[n..])
  }

  /** `sscanf(token, "%i:%u")` when it converts both numbers. */
  function ScanEntry(token: string): Option<(int, nat)> {
    match ScanInteger(token)
    case Nothing => None
    case Number(i, rest) =>
      if rest == "" || rest[0] != ':' then None
      else
        match ScanUnsigned(rest[1..])
        case Nothing => None
        case Number(count, _) => Some((i, count))
  }

  function Lookup(tokens: seq<string>, block: int): nat {
    if tokens == [] then 0
    else
      var e := ScanEntry(tokens[0]);
      if e.Some? && e.value.0 == block then e.value.1 else Lookup(tokens[1..], block)
  }

  /** The first token that scans as an entry of the block decides, and without one the result is 0. */
  lemma {:induction false} LookupIsFirst(tokens: seq<string>, block: int, k: nat)
    requires k <= |tokens|
    requires forall j :: 0 <= j < k ==> ScanEntry(tokens[j]).None? || ScanEntry(tokens[j]).value.0 != block
    requires k < |tokens| ==> ScanEntry(tokens[k]).Some? && ScanEntry(tokens[k]).value.0 == block
    ensures Lookup(tokens, block) == if k < |tokens| then ScanEntry(tokens[k]).value.1 else 0
  {
    if k > 0 {
      LookupIsFirst(tokens[1..], block, k - 1);
    }
  }

  /** Blanks before a number are passed over. */
  lemma ScanSkipsBlanks(s: string, blank: char)
    requires blank == ' ' || blank == '\t'
    ensures ScanInteger([blank] + s) == ScanInteger(s) && ScanUnsigned([blank] + s) == ScanUnsigned(s)
  {
    assert ([blank] + s)[1..] == s;
  }

  /** A number may be hexadecimal, or octal, with its prefix. */
  lemma ScanWithPrefix(d: string)
    requires d != ""
    ensures (forall i :: 0 <= i < |d| ==> DigitValue(d[i]) < 16) ==>
      ScanInteger("0x" + d) == Number(ValueOf(d, 16), "")
    ensures (forall i :: 0 <= i < |d| ==> DigitValue(d[i]) < 8) ==>
      ScanInteger("0" + d) == Number(ValueOf(d, 8), "")
  {
    hide DigitRun, ValueOf, ScanDigits;
    assert SkipBlanks("0x" + d) == "0x" + d && SkipBlanks("0" + d) == "0" + d;
    assert ("0x" + d)[2..] == d && d + "" == d && ("0" + d) + "" == "0" + d;
    if forall i :: 0 <= i < |d| ==> DigitValue(d[i]) < 16 {
      DigitsScan(d, "", 16);
    }
    if forall i :: 0 <= i < |d| ==> DigitValue(d[i]) < 8 {
      assert DigitValue(d[0]) < 8 && d[0] != 'x' && d[0] != 'X';
      DigitsScan("0" + d, "", 8);
      LeadingZero(d);
    }
  }

  /** A minus negates a signed number, and wraps an unsigned one. */
  lemma ScanNegative(d: string)
    requires d != "" && d[0] != '0' && forall i :: 0 <= i < |d| ==> DigitValue(d[i]) < 10
    ensures ScanInteger("-" + d) == Number(0 - ValueOf(d, 10), "")
    ensures ScanUnsigned("-" + d) == Number((0 - ValueOf(d, 10)) % WORD, "")
  {
    hide DigitRun, ValueOf, ScanDigits;
    assert SkipBlanks("-" + d) == "-" + d && ("-" + d)[1..] == d && d + "" == d;
    DigitsScan(d, "", 10);
  }

  lemma {:induction false} LeadingZero(d: string)
    ensures ValueOf("0" + d, 8) == ValueOf(d, 8)
  {
    if d == "" {
      assert "0"[..0] == "" && "0" + d == "0";
      assert ValueOf("", 8) == 0;
    } else {
      assert ("0" + d)[..|d|] == "0" + d[..|d| - 1];
      LeadingZero(d[..|d| - 1]);
    }
  }

  /** `block_size`, on the text read from the listing. */
  method BlockSize(text: string, block: int) returns (size: nat)
    ensures size == Lookup(Tokens(text), block)
  {
    size := 0;
    var rest := text;
    while rest != ""
      invariant Lookup(Tokens(rest), block) == Lookup(Tokens(text), block)
      invariant size == 0
      decreases |rest|
    {
      var n := LineEnd(rest);
      if n == 0 {
        rest := rest[1..];
      } else {
        var tok := rest[..n];
        var scanned := ScanEntry(tok);
        if scanned.Some? && scanned.value.0 == block {
          return scanned.value.1;
        }
        rest := rest[n..];
      }
    }
  }

  lemma ScanPrintedEntry(i: nat, count: nat)
    ensures ScanEntry(Entry(i, count)) == Some((i, count))
  {
    hide Decimal, ScanUnsigned, ScanInteger;
    var rest := ":" + Decimal(count);
    assert Entry(i, count) == Decimal(i) + rest;
    ScanDecimal(i, rest);
    assert rest[1..] == Decimal(count) + "";
    ScanDecimal(count, "");
  }

  lemma EntryIsOneLine(i: nat, count: nat)
    ensures Entry(i, count) != "" && '\n' !in Entry(i, count)
  {
    hide Decimal;
    DecimalValue(i);
    DecimalValue(count);
    assert '\n' !in Decimal(i) && '\n' !in Decimal(count);
  }

  lemma FirstToken(line: string, rest: string)
    requires line != "" && '\n' !in line
    ensures Tokens(line + "\n" + rest) == [line] + Tokens(rest)
  {
    var text := line + "\n" + rest;
    assert forall i :: 0 <= i < |line| ==> text[i] == line[i] && line[i] in line;
    assert text[|line|] == '\n';
    assert LineEnd(text) == |line|;
    assert text[..|line|] == line;
    var tail := text[|line|..];
    assert tail[0] == '\n' && tail[1..] == rest;
  }

  /** Looking a block up in the listing gives back its recorded count, and 0 for a block without
      pages or a number that is no block. */
  lemma {:induction false} ListingRoundTrip(counts: seq<nat>, i: nat, block: int)
    requires i <= |counts|
    ensures Lookup(Tokens(Listing(counts, i)), block) == if i <= block < |counts| then counts[block] else 0
    decreases |counts| - i
  {
    if i < |counts| {
      ListingRoundTrip(counts, i + 1, block);
      if counts[i] != 0 {
        ScanPrintedEntry(i, counts[i]);
        EntryIsOneLine(i, counts[i]);
        FirstToken(Entry(i, counts[i]), Listing(counts, i + 1));
      } else {
        assert "" + Listing(counts, i + 1) == Listing(counts, i + 1);
      }
    }
  }
}
