/** The host's side of a firmware restore: stage, verify, commit. */
module Restore {
  import opened Bytes
  import opened Flash

  const MIN_STAGING: int := 0x80000
  const WRITE_CHUNK: int := 256
  const RETRIES: nat := 2

  /** Where the host stages an image. */
  function StagingOffset(size: nat): nat {
    Max(RoundUp(size), MIN_STAGING)
  }

  /** The host goes on after its own check. */
  predicate HostAccepts(size: nat) {
    StagingOffset(size) + size <= PROTECTED
  }

  /** `image` is in the staging area. */
  predicate Staged(f: Data, image: Data) {
    |f| == SIZE && HostAccepts(|image|)
    && f[StagingOffset(|image|)..StagingOffset(|image|) + |image|] == image
  }

  /** Every image the host accepts goes to the fixed, sector-aligned offset, and
      the keyboard accepts each command the host then sends. */
  lemma AcceptedPassesTheDevice(size: nat)
    requires HostAccepts(size) && size > 0
    ensures StagingOffset(size) == MIN_STAGING && StagingOffset(size) % SECTOR == 0
    ensures EraseRc(StagingOffset(size), RoundUp(size)) == OK
    ensures CommitAllowed(StagingOffset(size), size)
    ensures forall off: nat | off < size && off % WRITE_CHUNK == 0 ::
              WriteRc(StagingOffset(size) + off, Min(WRITE_CHUNK, size - off)) == OK
  {
  }

  lemma HostAcceptsWhat(size: nat)
    ensures HostAccepts(size) <==> size <= PROTECTED - MIN_STAGING
  {
  }

  // A command whose reply is lost is sent again; erasing and programming twice
  // leaves what doing it once leaves.

  lemma ErasedTwice(f: Data, from: int, until: int)
    ensures Erased(Erased(f, from, until), from, until) == Erased(f, from, until)
  {
  }

  lemma ProgrammedTwice(f: Data, off: nat, data: Data)
    requires off + |data| <= |f|
    ensures Programmed(Programmed(f, off, data), off, data) == Programmed(f, off, data)
  {
  }

  /** `failed`: the driver did, in the last try. */
  method FlashErase(chip: Chip, off: nat, len: nat) returns (rc: Rc, ghost failed: bool)
    requires chip.Valid()
    modifies chip.flash
    ensures chip.Valid() && Within(old(chip.flash[..]), chip.flash[..], 0, PROTECTED)
    ensures EraseRc(off, len) != OK ==> rc == EraseRc(off, len)
    ensures EraseRc(off, len) == OK ==> rc == if failed then EIO else OK
    ensures chip.sound ==> !failed
    ensures EraseRc(off, len) == OK && chip.sound ==>
              chip.flash[..] == Erased(old(chip.flash[..]), off, off + len)
  {
    rc, failed := chip.Erase(off, len);
    for i := 0 to RETRIES
      invariant chip.Valid() && Within(old(chip.flash[..]), chip.flash[..], 0, PROTECTED)
      invariant EraseRc(off, len) != OK ==> rc == EraseRc(off, len)
      invariant EraseRc(off, len) == OK ==> rc == if failed then EIO else OK
      invariant chip.sound ==> !failed
      invariant EraseRc(off, len) == OK && chip.sound ==>
                  chip.flash[..] == Erased(old(chip.flash[..]), off, off + len)
    {
      var replyLost: bool := *;
      if !replyLost {
        return;
      }
      ErasedTwice(old(chip.flash[..]), off, off + len);
      rc, failed := chip.Erase(off, len);
    }
  }

  method FlashWrite(chip: Chip, off: nat, data: Data) returns (rc: Rc, ghost failed: bool)
    requires chip.Valid()
    modifies chip.flash
    ensures chip.Valid() && Within(old(chip.flash[..]), chip.flash[..], 0, PROTECTED)
    ensures WriteRc(off, |data|) != OK ==> rc == WriteRc(off, |data|)
    ensures WriteRc(off, |data|) == OK ==> rc == if failed then EIO else OK
    ensures chip.sound ==> !failed
    ensures WriteRc(off, |data|) == OK && chip.sound ==>
              chip.flash[..] == Programmed(old(chip.flash[..]), off, data)
  {
    rc, failed := chip.Write(off, data);
    for i := 0 to RETRIES
      invariant chip.Valid() && Within(old(chip.flash[..]), chip.flash[..], 0, PROTECTED)
      invariant WriteRc(off, |data|) != OK ==> rc == WriteRc(off, |data|)
      invariant WriteRc(off, |data|) == OK ==> rc == if failed then EIO else OK
      invariant chip.sound ==> !failed
      invariant WriteRc(off, |data|) == OK && chip.sound ==>
                  chip.flash[..] == Programmed(old(chip.flash[..]), off, data)
    {
      var replyLost: bool := *;
      if !replyLost {
        return;
      }
      if WriteRc(off, |data|) == OK {
        ProgrammedTwice(old(chip.flash[..]), off, data);
      }
      rc, failed := chip.Write(off, data);
    }
  }

  /** The first `n` bytes of the image are in place at `stg`, and the rest of
      its room is still erased. */
  predicate Filled(f: Data, stg: nat, image: Data, n: nat) {
    && n <= |image| && stg + |image| <= |f|
    && f[stg..stg + n] == image[..n]
    && forall k: nat | stg + n <= k < stg + |image| :: f[k] == 0xFF
  }

  lemma ProgrammingFills(f: Data, stg: nat, image: Data, n: nat, m: nat)
    requires Filled(f, stg, image, n) && n <= m <= |image|
    ensures Filled(Programmed(f, stg + n, image[n..m]), stg, image, m)
  {
    var g := Programmed(f, stg + n, image[n..m]);
    forall i: nat | i < m
      ensures g[stg..stg + m][i] == image[..m][i]
    {
      if i < n {
        assert f[stg..stg + n][i] == image[..n][i];
      } else {
        assert f[stg + i] == 0xFF;
      }
    }
  }

  /** Program the image into the erased staging area, unless a command fails. */
  method WriteStaging(chip: Chip, stg: nat, image: Data) returns (ok: bool, ghost failed: bool)
    requires chip.Valid() && HostAccepts(|image|) && stg == StagingOffset(|image|)
    requires chip.sound ==> Filled(chip.flash[..], stg, image, 0)
    modifies chip.flash
    ensures chip.Valid() && Within(old(chip.flash[..]), chip.flash[..], 0, PROTECTED)
    ensures ok <==> !failed
    ensures chip.sound ==> ok && Filled(chip.flash[..], stg, image, |image|)
  {
    failed := false;
    var size := |image|;
    var chunks := (size + WRITE_CHUNK - 1) / WRITE_CHUNK;
    for i := 0 to chunks
      invariant chip.Valid() && Within(old(chip.flash[..]), chip.flash[..], 0, PROTECTED)
      invariant !failed && (chip.sound ==> Filled(chip.flash[..], stg, image, Min(i * WRITE_CHUNK, size)))
    {
      var off := i * WRITE_CHUNK;
      var part := image[off..Min(off + WRITE_CHUNK, size)];
      if chip.sound {
        ProgrammingFills(chip.flash[..], stg, image, off, off + |part|);
      }
      var rc;
      rc, failed := FlashWrite(chip, stg + off, part);
      if rc != OK {
        return false, failed;
      }
    }
    ok := true;
  }

  /** Read the staging area back. */
  method VerifyStaging(chip: Chip, stg: nat, image: Data) returns (ok: bool, ghost failed: bool)
    requires chip.Valid() && HostAccepts(|image|) && stg == StagingOffset(|image|)
    ensures ok ==> Staged(chip.flash[..], image)
    ensures Staged(chip.flash[..], image) ==> ok || failed
    ensures chip.sound ==> !failed && (ok <==> Staged(chip.flash[..], image))
    ensures failed ==> !ok
  {
    failed := false;
    ghost var f := chip.flash[..];
    var size := |image|;
    var chunks := (size + WRITE_CHUNK - 1) / WRITE_CHUNK;
    for i := 0 to chunks
      invariant !failed && f[stg..stg + Min(i * WRITE_CHUNK, size)] == image[..Min(i * WRITE_CHUNK, size)]
    {
      var off := i * WRITE_CHUNK;
      var same;
      same, failed := SameChunk(chip, stg, image, off, Min(off + WRITE_CHUNK, size));
      if !same {
        return false, failed;
      }
      MatchGrows(f, stg, image, off, Min(off + WRITE_CHUNK, size));
    }
    ok := true;
  }

  method SameChunk(chip: Chip, stg: nat, image: Data, off: nat, end: nat) returns (same: bool, ghost failed: bool)
    requires chip.Valid() && HostAccepts(|image|) && stg == StagingOffset(|image|)
    requires off < end <= |image| && end - off <= WRITE_CHUNK
    ensures same ==> chip.flash[..][stg + off..stg + end] == image[off..end]
    ensures chip.sound ==> !failed && (same <==> chip.flash[..][stg + off..stg + end] == image[off..end])
    ensures (Staged(chip.flash[..], image) ==> same || failed) && (failed ==> !same)
  {
    var rc, actual;
    rc, actual, failed := chip.Read(stg + off, end - off);
    SliceOfSlice(chip.flash[..], stg, |image|, off, end);
    same := rc == OK && actual == image[off..end];
  }

  lemma SliceOfSlice(f: Data, base: nat, len: nat, a: nat, b: nat)
    requires base + len <= |f| && a <= b <= len
    ensures f[base..base + len][a..b] == f[base + a..base + b]
  {
    var s, t := f[base..base + len][a..b], f[base + a..base + b];
    assert forall i: nat | i < b - a :: s[i] == f[base + a + i] == t[i];
  }

  lemma MatchGrows(f: Data, stg: nat, image: Data, n: nat, m: nat)
    requires n <= m <= |image| && stg + |image| <= |f|
    requires f[stg..stg + n] == image[..n] && f[stg + n..stg + m] == image[n..m]
    ensures f[stg..stg + m] == image[..m]
  {
    assert f[stg..stg + m] == f[stg..stg + n] + f[stg + n..stg + m];
    assert image[..m] == image[..n] + image[n..m];
  }

  /** Stage the image, verify it, commit it.  The host goes on after a command
      only when it did not fail. */
  method RestoreFirmware(chip: Chip, image: Data, verify: bool) returns (ok: bool, ghost failed: bool)
    requires chip.Valid() && !chip.scheduled
    modifies chip, chip.flash
    ensures chip.Valid() && Within(old(chip.flash[..]), chip.flash[..], 0, PROTECTED)
    ensures ok ==> chip.scheduled && chip.commitStg == MIN_STAGING && chip.commitLen == |image|
    ensures ok <==> && 0 < |image| <= PROTECTED - MIN_STAGING && !failed
                    && (verify ==> Staged(chip.flash[..], image))
    ensures chip.sound ==> !failed && (ok ==> Staged(chip.flash[..], image))
    ensures chip.sound ==> (ok <==> 0 < |image| <= PROTECTED - MIN_STAGING)
  {
    failed := false;
    var size := |image|;
    var eraseEnd := RoundUp(size);
    var stg := Max(eraseEnd, MIN_STAGING);
    HostAcceptsWhat(size);
    if stg + size > PROTECTED {
      return false, failed;
    }
    if size > 0 {
      AcceptedPassesTheDevice(size);
    }
    var rc;
    rc, failed := FlashErase(chip, stg, eraseEnd);
    if rc != OK {
      return false, failed;
    }
    assert size > 0;
    assert chip.sound ==> Filled(chip.flash[..], stg, image, 0);
    ok, failed := WriteStaging(chip, stg, image);
    if !ok {
      return false, failed;
    }
    if verify {
      ok, failed := VerifyStaging(chip, stg, image);
      if !ok {
        return false, failed;
      }
    }
    rc := chip.Commit(stg, size);
    ok := rc == OK;
  }

  /** From the host's call to the reset: after a restore that reported success
      the image is at 0, when it was verified or the flash does what it is
      told; the calibration and address sectors never change. */
  method RestoreAndReset(chip: Chip, image: Data, verify: bool) returns (ok: bool, ghost failed: bool)
    requires chip.Valid() && !chip.scheduled
    modifies chip, chip.flash
    ensures chip.flash[PROTECTED..] == old(chip.flash[PROTECTED..])
    ensures ok ==> 0 < |image| <= PROTECTED - MIN_STAGING && !failed
    ensures !verify && 0 < |image| <= PROTECTED - MIN_STAGING && !failed ==> ok
    ensures ok && (verify || chip.sound) ==> chip.flash[..|image|] == image
    ensures ok && (verify || chip.sound) ==>
              forall i: nat | |image| <= i < MIN_STAGING :: chip.flash[i] == 0xFF
    ensures chip.sound ==> (ok <==> 0 < |image| <= PROTECTED - MIN_STAGING)
  {
    ok, failed := RestoreFirmware(chip, image, verify);
    ghost var f := chip.flash[..];
    assert f[PROTECTED..] == old(chip.flash[PROTECTED..]);
    if ok {
      chip.Trampoline();
      RestoresStaged(f, chip.commitStg, chip.commitLen);
      ProtectedStays(f, chip.commitStg, chip.commitLen);
      assert chip.flash[..|image|] == chip.flash[..][..|image|];
      assert chip.flash[PROTECTED..] == chip.flash[..][PROTECTED..];
      forall i: nat | |image| <= i < MIN_STAGING
        ensures chip.flash[i] == 0xFF
      {
        assert chip.flash[i] == chip.flash[..][i];
      }
    }
  }

  /** The cleanup of the trampoline starts at the staging offset and ends at the
      bank boundary, so for a host restore it erases nothing: the staged copy
      stays. */
  lemma StagedCopyStays(f: Data, image: Data)
    requires Staged(f, image) && image != []
    ensures Restored(f, MIN_STAGING, |image|)[MIN_STAGING..MIN_STAGING + |image|] == image
  {
    AcceptedPassesTheDevice(|image|);
    var r := Restored(f, MIN_STAGING, |image|);
    assert |image| <= MIN_STAGING && RoundUp(MIN_STAGING) == MIN_STAGING;
    assert forall i: nat | MIN_STAGING <= i < SIZE :: r[i] == f[i];
    assert r[MIN_STAGING..] == f[MIN_STAGING..];
    assert r[MIN_STAGING..MIN_STAGING + |image|] == r[MIN_STAGING..][..|image|];
  }
}
