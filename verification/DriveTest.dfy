/** The drive test that writes a region and puts it back (driveTest/BlockDeviceLib.c,
    `writeAndRestoreBlock`), on a device whose transfers may fall short. */
module DriveTest {
  import opened Common

  /** A transfer into `target` that stops after `n` bytes. */
  function Over(target: seq<Byte>, source: seq<Byte>, n: nat): (r: seq<Byte>)
    requires n <= |source| == |target|
    ensures |r| == |target| && forall i :: 0 <= i < |r| ==> r[i] == if i < n then source[i] else target[i]
  {
    source[..n] + target[n..]
  }

  /** The region after a run that gets to the restoring write: `saved` bytes of it were read into
      the buffer `junk`, `written` bytes of `pattern` were written, `restored` bytes put back. */
  function RegionAfter(region: seq<Byte>, pattern: seq<Byte>, junk: seq<Byte>,
                       saved: nat, written: nat, restored: nat): seq<Byte>
    requires |region| == |pattern| == |junk|
    requires saved <= |region| && written <= |region| && restored <= |region|
  {
    Over(Over(region, pattern, written), Over(junk, region, saved), restored)
  }

  ghost predicate Restores(region: seq<Byte>, pattern: seq<Byte>, junk: seq<Byte>,
                           saved: nat, written: nat, restored: nat)
    requires saved <= |region| && written <= |region| && restored <= |region|
  {
    |region| == |pattern| == |junk| ==> RegionAfter(region, pattern, junk, saved, written, restored) == region
  }

  /** Byte by byte: what the restoring write puts back is what was saved, or else what the buffer
      held; beyond it stands the pattern as far as it was written. */
  lemma RegionAfterAt(region: seq<Byte>, pattern: seq<Byte>, junk: seq<Byte>,
                      saved: nat, written: nat, restored: nat, i: nat)
    requires |region| == |pattern| == |junk| && i < |region|
    requires saved <= |region| && written <= |region| && restored <= |region|
    ensures RegionAfter(region, pattern, junk, saved, written, restored)[i] ==
      if i < restored then (if i < saved then region[i] else junk[i])
      else if i < written then pattern[i] else region[i]
  {
  }

  lemma CoveredRegionComesBack(region: seq<Byte>, pattern: seq<Byte>, junk: seq<Byte>,
                               saved: nat, written: nat, restored: nat)
    requires written <= restored <= saved <= |region|
    ensures Restores(region, pattern, junk, saved, written, restored)
  {
  }

  /** The comparison in between passes: what is read back of the region, into the buffer `junk'`
      and as far as the `checked` bytes that come through, is the pattern. */
  predicate Passes(region: seq<Byte>, pattern: seq<Byte>, junk': seq<Byte>, written: nat, checked: nat)
    requires |region| == |pattern| == |junk'| && written <= |region| && checked <= |region|
  {
    Over(junk', Over(region, pattern, written), checked) == pattern
  }

  /** A test passes exactly when every byte that was checked shows the pattern on the device, where
      a written byte always does, and every other byte of the buffer happened to hold it. */
  lemma WhenTheTestPasses(region: seq<Byte>, pattern: seq<Byte>, junk': seq<Byte>, written: nat, checked: nat)
    requires |region| == |pattern| == |junk'| && written <= |region| && checked <= |region|
    ensures Passes(region, pattern, junk', written, checked) <==>
      && (forall i :: written <= i < checked ==> region[i] == pattern[i])
      && (forall i :: checked <= i < |region| ==> junk'[i] == pattern[i])
  {
    var seen := Over(junk', Over(region, pattern, written), checked);
    if Passes(region, pattern, junk', written, checked) {
      forall i | 0 <= i < |region|
        ensures seen[i] == pattern[i]
      {
      }
    }
  }

  /** Zeros, but for a one at index `i`. */
  function Spike(size: nat, i: nat): (r: seq<Byte>)
    ensures |r| == size
  {
    seq(size, k => if k == i then 1 else 0)
  }

  /** More put back than was saved: the test passes, and the buffer's own content comes out. */
  lemma UnsavedBytesComeOut(size: nat, saved: nat, written: nat, checked: nat, restored: nat)
    requires written <= size && checked <= size && saved < restored <= size
    ensures var zeros, ones: seq<Byte> := seq(size, _ => 0), seq(size, _ => 1);
      Passes(zeros, zeros, zeros, written, checked) && !Restores(zeros, zeros, ones, saved, written, restored)
  {
    var zeros, ones: seq<Byte> := seq(size, _ => 0), seq(size, _ => 1);
    assert RegionAfter(zeros, zeros, ones, saved, written, restored)[saved] == 1;
  }

  /** Less put back than was written: the test passes, and a byte of the pattern stays. */
  lemma PatternStays(size: nat, saved: nat, written: nat, checked: nat, restored: nat)
    requires saved <= size && checked <= size && restored < written <= size
    ensures var zeros: seq<Byte>, pattern := seq(size, _ => 0), Spike(size, restored);
      Passes(zeros, pattern, pattern, written, checked) && !Restores(zeros, pattern, zeros, saved, written, restored)
  {
    var zeros: seq<Byte>, pattern := seq(size, _ => 0), Spike(size, restored);
    assert Over(zeros, pattern, written) == pattern;
    assert Over(pattern, pattern, checked) == pattern;
    assert RegionAfter(zeros, pattern, zeros, saved, written, restored)[restored] == 1;
  }

  /** Whatever is on the device and in memory, in a run whose comparison passes the region comes
      back, exactly when the restoring write covers what was overwritten and puts back no more
      than was saved. */
  lemma WhenTheRegionComesBack(size: nat, saved: nat, written: nat, checked: nat, restored: nat)
    requires saved <= size && written <= size && checked <= size && restored <= size
    ensures (forall region: seq<Byte>, pattern: seq<Byte>, junk: seq<Byte>, junk': seq<Byte> ::
              |region| == |pattern| == |junk'| == size && Passes(region, pattern, junk', written, checked) ==>
              Restores(region, pattern, junk, saved, written, restored))
      <==> written <= restored <= saved
  {
    if written <= restored <= saved {
      forall region: seq<Byte>, pattern: seq<Byte>, junk: seq<Byte> | |region| == size
        ensures Restores(region, pattern, junk, saved, written, restored)
      {
        CoveredRegionComesBack(region, pattern, junk, saved, written, restored);
      }
    } else if restored > saved {
      UnsavedBytesComeOut(size, saved, written, checked, restored);
    } else {
      PatternStays(size, saved, written, checked, restored);
    }
  }

  class Device {
    var bytes: array<Byte>

    constructor (size: nat)
      ensures fresh(bytes) && bytes.Length == size
    {
      bytes := new Byte[size](_ => 0);
    }

    /** `readBlockToDevice` with the device's block size: nothing beyond its end. `n` is how much
        of a read in range comes through. */
    method ReadBlock(buffer: seq<Byte>, begin: nat, n: nat) returns (result: seq<Byte>)
      requires n <= |buffer|
      ensures begin + |buffer| > bytes.Length ==> result == buffer
      ensures begin + |buffer| <= bytes.Length ==> result == Over(buffer, bytes[begin..begin + |buffer|], n)
    {
      if begin + |buffer| > bytes.Length {
        return buffer;
      }
      result := bytes[begin..begin + n] + buffer[n..];
      assert bytes[begin..begin + n] == bytes[begin..begin + |buffer|][..n];
    }

    /** `writeBlockToDevice`, likewise. */
    method WriteBlock(buffer: seq<Byte>, begin: nat, n: nat)
      requires n <= |buffer|
      modifies bytes
      ensures begin + |buffer| > bytes.Length ==> bytes[..] == old(bytes[..])
      ensures begin + |buffer| <= bytes.Length ==>
        && bytes[..begin] == old(bytes[..begin])
        && bytes[begin..begin + |buffer|] == Over(old(bytes[begin..begin + |buffer|]), buffer, n)
        && bytes[begin + |buffer|..] == old(bytes[begin + |buffer|..])
    {
      if begin + |buffer| > bytes.Length {
        return;
      }
      for i := 0 to n
        invariant forall k :: 0 <= k < bytes.Length ==>
          bytes[k] == if begin <= k < begin + i then buffer[k - begin] else old(bytes[k])
      {
        bytes[begin + i] := buffer[i];
      }
      ghost var end := begin + |buffer|;
      assert bytes[..begin] == old(bytes[..begin]);
      assert bytes[end..] == old(bytes[end..]);
      assert bytes[begin..end] == Over(old(bytes[begin..end]), buffer, n);
    }

    /** `writeAndRestoreBlock`. `junk` and `junk'` are the fresh buffers; `saved`, `written`,
        `checked` and `restored` say how far each transfer gets. */
    method WriteAndRestore(blockSize: nat, pattern: seq<Byte>, begin: nat, junk: seq<Byte>, junk': seq<Byte>,
                           saved: nat, written: nat, checked: nat, restored: nat) returns (ok: bool)
      requires blockSize > 0 && |junk| == |junk'| == |pattern|
      requires saved <= |pattern| && written <= |pattern| && checked <= |pattern| && restored <= |pattern|
      modifies bytes
      ensures |pattern| % blockSize != 0 ==> !ok
      // beyond the end of the device nothing is tested, and nothing is touched
      ensures begin + |pattern| > bytes.Length ==>
        bytes[..] == old(bytes[..]) && (|pattern| % blockSize == 0 ==> (ok <==> junk' == pattern))
      ensures begin + |pattern| <= bytes.Length ==>
        && bytes[..begin] == old(bytes[..begin])
        && bytes[begin + |pattern|..] == old(bytes[begin + |pattern|..])
        && (|pattern| % blockSize == 0 ==>
              var region := old(bytes[begin..begin + |pattern|]);
              && (ok <==> Passes(region, pattern, junk', written, checked))
              && bytes[begin..begin + |pattern|] ==
                 if ok then RegionAfter(region, pattern, junk, saved, written, restored)
                 else Over(region, pattern, written))
        && (|pattern| % blockSize != 0 ==> bytes[..] == old(bytes[..]))
      // complete transfers: the test passes, and every byte is as it was
      ensures (begin + |pattern| <= bytes.Length && |pattern| % blockSize == 0
               && saved == written == checked == restored == |pattern|) ==>
        ok && bytes[..] == old(bytes[..])
    {
      if |pattern| % blockSize != 0 {
        return false;
      }
      var blockDevice := ReadBlock(junk, begin, saved);
      WriteBlock(pattern, begin, written);
      var compareDevice := ReadBlock(junk', begin, checked);
      if pattern != compareDevice {
        return false;
      }
      WriteBlock(blockDevice, begin, restored);
      ok := true;
      ghost var end := begin + |pattern|;
      if end <= bytes.Length {
        SplitInThree(bytes[..], begin, end);
        SplitInThree(old(bytes[..]), begin, end);
      }
    }
  }
}
