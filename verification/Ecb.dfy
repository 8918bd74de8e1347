/** Text encryption block by block (TestDispatcher/encryption/rijndael_encryption.h), over any
    block cipher of 16 bytes: electronic codebook mode, section 6.1 of NIST SP 800-38A. */
module Ecb {
  import opened Common

  const BLOCK: nat := 16

  type Block = s: seq<Byte> | |s| == BLOCK witness seq(BLOCK, _ => 0)

  /** The first block of a text, filled up with zeros. */
  function First(text: seq<Byte>): Block {
    seq(BLOCK, j requires 0 <= j < BLOCK => if j < |text| then text[j] else 0)
  }

  function Rest(text: seq<Byte>): seq<Byte> {
    if |text| <= BLOCK then [] else text[BLOCK..]
  }

  /** Every block of the text on its own under `cipher`. */
  function Codebook(cipher: Block -> Block, text: seq<Byte>): seq<Byte>
    decreases |text|
  {
    if text == [] then [] else cipher(First(text)) + Codebook(cipher, Rest(text))
  }

  function Blocks(length: nat): nat {
    (length + BLOCK - 1) / BLOCK
  }

  function Zeros(n: nat): seq<Byte> {
    seq(n, _ => 0)
  }

  /** A `short` holds a count modulo 2^16, as a signed number. */
  function ToShort(n: nat): (r: int)
    ensures -0x8000 <= r < 0x8000 && (n - r) % 0x1_0000 == 0
  {
    if n % 0x1_0000 < 0x8000 then n % 0x1_0000 else n % 0x1_0000 - 0x1_0000
  }

  lemma {:induction false} CodebookLength(cipher: Block -> Block, text: seq<Byte>)
    ensures |Codebook(cipher, text)| == BLOCK * Blocks(|text|)
    decreases |text|
  {
    if text != [] {
      CodebookLength(cipher, Rest(text));
    }
  }

  /** Block `k` of a text: its sixteen bytes, zeros beyond the end. */
  function BlockAt(text: seq<Byte>, k: nat): (b: Block)
    ensures forall j :: 0 <= j < 16 ==> b[j] == if 16 * k + j < |text| then text[16 * k + j] else 0
  {
    seq(BLOCK, j requires 0 <= j < BLOCK => if BLOCK * k + j < |text| then text[BLOCK * k + j] else 0)
  }

  /** The codebook is the cipher on each block, in order, and nothing else. */
  lemma {:induction false} CodebookIsTheCipher(cipher: Block -> Block, text: seq<Byte>, k: nat)
    requires 16 * k < |text|
    ensures 16 * k + 16 <= |Codebook(cipher, text)|
    ensures Codebook(cipher, text)[16 * k..16 * k + 16] == cipher(BlockAt(text, k))
    decreases |text|
  {
    var head: seq<Byte>, tail: seq<Byte> := cipher(First(text)), Codebook(cipher, Rest(text));
    if k == 0 {
      assert First(text) == BlockAt(text, 0);
      assert (head + tail)[..16] == head;
    } else {
      CodebookIsTheCipher(cipher, Rest(text), k - 1);
      assert BlockAt(Rest(text), k - 1) == BlockAt(text, k);
      assert (head + tail)[16 * k..16 * k + 16] == tail[16 * (k - 1)..16 * (k - 1) + 16];
    }
  }

  lemma BlocksOfPrefix(cipher: Block -> Block, text: seq<Byte>, buffer: seq<Byte>, n: nat)
    requires n <= |buffer| && buffer[..n] == Codebook(cipher, text)
    ensures forall k: nat {:trigger BlockAt(text, k)} :: 16 * k < |text| ==>
      16 * k + 16 <= |buffer| && buffer[16 * k..16 * k + 16] == cipher(BlockAt(text, k))
  {
    forall k: nat | 16 * k < |text|
      ensures 16 * k + 16 <= |buffer| && buffer[16 * k..16 * k + 16] == cipher(BlockAt(text, k))
    {
      CodebookIsTheCipher(cipher, text, k);
      assert buffer[16 * k..16 * k + 16] == buffer[..n][16 * k..16 * k + 16];
    }
  }

  /** How many zeros fill a text up to whole blocks. */
  function Fill(length: nat): (n: nat)
    ensures length + n == BLOCK * Blocks(length)
  {
    BLOCK * Blocks(length) - length
  }

  lemma FillOfRest(text: seq<Byte>)
    requires text != []
    ensures First(text) + (Rest(text) + Zeros(Fill(|Rest(text)|))) == text + Zeros(Fill(|text|))
  {
    if |text| >= BLOCK {
      assert Fill(|text|) == Fill(|Rest(text)|);
      assert text == First(text) + Rest(text);
    } else {
      assert Fill(|text|) == BLOCK - |text| && Fill(|Rest(text)|) == 0;
    }
  }

  /** Decrypting what was encrypted gives the text back, filled up with zeros to whole blocks. */
  lemma {:induction false} RoundTrip(enc: Block -> Block, dec: Block -> Block, text: seq<Byte>)
    requires forall b: Block :: dec(enc(b)) == b
    ensures Codebook(dec, Codebook(enc, text)) == text + Zeros(Fill(|text|))
    decreases |text|
  {
    hide Fill;
    if text == [] {
      assert Fill(0) == 0;
    } else {
      var head, tail := enc(First(text)), Codebook(enc, Rest(text));
      RoundTrip(enc, dec, Rest(text));
      CodebookLength(enc, Rest(text));
      assert First(head + tail) == head;
      assert Rest(head + tail) == tail;
      FillOfRest(text);
    }
  }

  /** A buffer read as a C string. */
  function UpToZero(text: seq<Byte>): seq<Byte> {
    if text == [] || text[0] == 0 then [] else [text[0]] + UpToZero(text[1..])
  }

  lemma {:induction false} PaddingEndsTheString(text: seq<Byte>, n: nat)
    requires forall i :: 0 <= i < |text| ==> text[i] != 0
    ensures UpToZero(text + Zeros(n)) == text
  {
    if text != [] {
      assert (text + Zeros(n))[1..] == text[1..] + Zeros(n);
      PaddingEndsTheString(text[1..], n);
    }
  }

  /** Distinct C strings have distinct encryptions. */
  lemma EncryptionIsInjective(enc: Block -> Block, dec: Block -> Block, a: seq<Byte>, b: seq<Byte>)
    requires forall x: Block :: dec(enc(x)) == x
    requires forall i :: 0 <= i < |a| ==> a[i] != 0
    requires forall i :: 0 <= i < |b| ==> b[i] != 0
    ensures Codebook(enc, a) == Codebook(enc, b) <==> a == b
  {
    RoundTrip(enc, dec, a);
    RoundTrip(enc, dec, b);
    PaddingEndsTheString(a, Fill(|a|));
    PaddingEndsTheString(b, Fill(|b|));
  }

  /** `encryptText`. A buffer that passes the size check holds the whole result. */
  method EncryptText(enc: Block -> Block, plainText: seq<Byte>, buffer: array<Byte>) returns (r: int)
    modifies buffer
    ensures buffer.Length < |plainText| * 16 ==> r == -1 && buffer[..] == old(buffer[..])
    ensures buffer.Length >= |plainText| * 16 ==>
      var n := BLOCK * Blocks(|plainText|);
      && n <= buffer.Length && r == ToShort(n)
      && buffer[..n] == Codebook(enc, plainText)
      && buffer[n..] == old(buffer[n..])
    // every block of the buffer is the block of the text, encrypted
    ensures buffer.Length >= |plainText| * 16 ==>
      forall k: nat {:trigger BlockAt(plainText, k)} :: 16 * k < |plainText| ==>
        16 * k + 16 <= buffer.Length && buffer[16 * k..16 * k + 16] == enc(BlockAt(plainText, k))
    ensures buffer.Length >= |plainText| * 16 && |plainText| <= 0x7FF0 ==> r == (|plainText| + 15) / 16 * 16
  {
    if buffer.Length < |plainText| * 16 {
      return -1;
    }
    CodebookLength(enc, plainText);
    var written := Transform(enc, plainText, buffer);
    BlocksOfPrefix(enc, plainText, buffer[..], written);
    r := ToShort(written);
  }

  /** `decryptText`. */
  method DecryptText(dec: Block -> Block, cipherText: seq<Byte>, buffer: array<Byte>) returns (r: int)
    requires buffer.Length >= |cipherText|
    modifies buffer
    ensures |cipherText| % 16 > 0 ==> r == -1 && buffer[..] == old(buffer[..])
    ensures |cipherText| % 16 == 0 ==>
      && r == ToShort(|cipherText|)
      && buffer[..|cipherText|] == Codebook(dec, cipherText)
      && buffer[|cipherText|..] == old(buffer[|cipherText|..])
    // every block of the buffer is the block of the text, decrypted
    ensures |cipherText| % 16 == 0 ==>
      forall k: nat {:trigger BlockAt(cipherText, k)} :: 16 * k < |cipherText| ==>
        16 * k + 16 <= buffer.Length && buffer[16 * k..16 * k + 16] == dec(BlockAt(cipherText, k))
    ensures |cipherText| % 16 == 0 && |cipherText| <= 0x7FF0 ==> r == |cipherText|
  {
    if |cipherText| % 16 > 0 {
      return -1;
    }
    CodebookLength(dec, cipherText);
    var written := Transform(dec, cipherText, buffer);
    BlocksOfPrefix(dec, cipherText, buffer[..], written);
    r := ToShort(written);
  }

  /** The sixteen bytes from `i` on, zeros beyond the end. */
  method Gather(text: seq<Byte>, i: nat) returns (input: Block)
    requires i < |text|
    ensures input == First(text[i..])
  {
    var bytes: seq<Byte> := [];
    for j := 0 to 16
      invariant |bytes| == j && forall k :: 0 <= k < j ==> bytes[k] == if i + k < |text| then text[i + k] else 0
    {
      bytes := bytes + [if j + i >= |text| then 0 else text[j + i]];
    }
    input := bytes;
  }

  /** One block through the output iterator. */
  method Emit(output: Block, buffer: array<Byte>, start: nat) returns (written: nat)
    requires start + 16 <= buffer.Length
    modifies buffer
    ensures written == start + 16
    ensures buffer[..written] == old(buffer[..start]) + output
    ensures buffer[written..] == old(buffer[written..])
  {
    written := start;
    for d := 0 to 16
      invariant written == start + d
      invariant forall k :: 0 <= k < buffer.Length ==>
        buffer[k] == if start <= k < written then output[k - start] else old(buffer[k])
    {
      buffer[written] := output[d];
      written := written + 1;
    }
  }

  /** The loop that both directions share: block in, block out. */
  method Transform(cipher: Block -> Block, text: seq<Byte>, buffer: array<Byte>) returns (written: nat)
    requires |Codebook(cipher, text)| <= buffer.Length
    modifies buffer
    ensures written == |Codebook(cipher, text)|
    ensures buffer[..written] == Codebook(cipher, text)
    ensures buffer[written..] == old(buffer[written..])
  {
    written := 0;
    var i := 0;
    ghost var rest := text;
    while i < |text|
      invariant rest == if i <= |text| then text[i..] else []
      invariant written + |Codebook(cipher, rest)| == |Codebook(cipher, text)| <= buffer.Length
      invariant buffer[..written] + Codebook(cipher, rest) == Codebook(cipher, text)
      invariant buffer[written..] == old(buffer[written..])
    {
      var input := Gather(text, i);
      var output := cipher(input);
      Regroup(buffer[..written], output, Codebook(cipher, Rest(rest)));
      written := Emit(output, buffer, written);
      i, rest := i + 16, Rest(rest);
    }
    assert buffer[..written] + [] == buffer[..written];
  }
}
