/** The keyboard's side of a firmware restore: raw flash commands, and the
    trampoline that replaces the firmware from a staging area. */
module Flash {

  const SIZE: int := 0x100000
  const PROTECTED: int := 0xFE000
  const SECTOR: int := 4096
  const PAGE: int := 256
  const BANK: int := 0x80000      // the cleanup ends here
  const MAX_DATA: int := 256

  type Data = seq<bv8>

  datatype Rc = OK | EINVAL | EACCESSDENIED | EIO

  function RoundDown(x: int): int {
    x / SECTOR * SECTOR
  }

  function RoundUp(x: int): int {
    (x + (SECTOR - 1)) / SECTOR * SECTOR
  }

  /** [from, until) set to 0xFF. */
  function Erased(f: Data, from: int, until: int): (r: Data)
    ensures |r| == |f|
  {
    seq(|f|, i requires 0 <= i < |f| => if from <= i < until then 0xFF else f[i])
  }

  /** Programming only clears bits. */
  function Programmed(f: Data, off: int, data: Data): (r: Data)
    requires 0 <= off && off + |data| <= |f|
    ensures |r| == |f|
  {
    seq(|f|, i requires 0 <= i < |f| => if off <= i < off + |data| then f[i] & data[i - off] else f[i])
  }

  /** Nothing outside [from, until) differs. */
  predicate Within(f: Data, g: Data, from: int, until: int) {
    |f| == |g| && forall i: nat | i < |f| && !(from <= i < until) :: f[i] == g[i]
  }

  function EraseRc(off: nat, len: nat): Rc {
    if off + len > PROTECTED then EACCESSDENIED
    else if off % SECTOR != 0 || len % SECTOR != 0 || len == 0 then EINVAL
    else OK
  }

  /** Also for a read. */
  function WriteRc(off: nat, len: nat): Rc {
    if len == 0 || len > MAX_DATA then EINVAL
    else if off + len > PROTECTED then EACCESSDENIED
    else OK
  }

  /** What the commit handler checks. */
  predicate CommitAllowed(stg: nat, len: nat) {
    len > 0 && stg + len <= PROTECTED && RoundUp(len) <= PROTECTED && RoundUp(len) <= stg
  }

  /** An erase is accepted for whole sectors below the protected region. */
  lemma ErasableRanges(off: nat, len: nat)
    ensures EraseRc(off, len) == OK <==>
              0 < len && off + len <= PROTECTED && RoundDown(off) == off && RoundDown(off + len) == off + len
    ensures EraseRc(off, len) == EACCESSDENIED <==> off + len > PROTECTED
  {
  }

  /** A commit is accepted when something is staged below the protected region,
      and none of it in a sector that holds a byte of where the image goes. */
  lemma CommittableRanges(stg: nat, len: nat)
    ensures CommitAllowed(stg, len) <==>
              0 < len && stg + len <= PROTECTED && forall k: nat | stg <= k < stg + len :: RoundDown(k) >= len
  {
    if len > 0 {
      assert RoundUp(len) <= stg <==> RoundDown(stg) >= len;
    }
  }

  /** The flash after the trampoline.  The sector of an unaligned staging offset
      is gone before it is copied. */
  function Restored(f: Data, stg: nat, len: nat): (r: Data)
    requires |f| == SIZE && CommitAllowed(stg, len)
    ensures |r| == SIZE
  {
    seq(SIZE, i requires 0 <= i < SIZE =>
      if i < len then if stg + i < RoundUp(stg) then 0xFF else f[stg + i]
      else if i < RoundUp(stg) || i < BANK then 0xFF
      else f[i])
  }

  class Chip {
    const flash: array<bv8>
    /** whether erase and program do what they are asked, and never fail */
    const sound: bool
    var commitStg: nat
    var commitLen: nat
    var scheduled: bool

    ghost predicate Valid()
      reads this
    {
      flash.Length == SIZE && (scheduled ==> CommitAllowed(commitStg, commitLen))
    }

    constructor (flash: array<bv8>, sound: bool)
      requires flash.Length == SIZE
      ensures Valid() && this.flash == flash && this.sound == sound && !scheduled
    {
      this.flash, this.sound := flash, sound;
      commitStg, commitLen, scheduled := 0, 0, false;
    }

    /** Erase the sector that holds `addr`. */
    method EraseSector(addr: nat)
      requires flash.Length == SIZE && addr < SIZE
      modifies flash
      ensures flash[..] == Erased(old(flash[..]), RoundDown(addr), RoundDown(addr) + SECTOR)
    {
      forall i | RoundDown(addr) <= i < RoundDown(addr) + SECTOR {
        flash[i] := 0xFF;
      }
    }

    /** Program at most a page, inside one page. */
    method ProgramPage(addr: nat, data: Data)
      requires flash.Length == SIZE && addr % PAGE + |data| <= PAGE && addr + |data| <= SIZE
      modifies flash
      ensures flash[..] == Programmed(old(flash[..]), addr, data)
    {
      forall i | 0 <= i < |data| {
        flash[addr + i] := flash[addr + i] & data[i];
      }
    }

    /** The driver's erase; an unsound one may fail or leave anything in the
        sector. */
    method DriverErase(pos: nat) returns (ok: bool)
      requires flash.Length == SIZE && pos % SECTOR == 0 && pos < SIZE
      modifies flash
      ensures Within(old(flash[..]), flash[..], pos, pos + SECTOR)
      ensures sound ==> ok && flash[..] == Erased(old(flash[..]), pos, pos + SECTOR)
    {
      if sound {
        EraseSector(pos);
        return true;
      }
      ok := *;
      for i := pos to pos + SECTOR
        invariant Within(old(flash[..]), flash[..], pos, pos + SECTOR)
      {
        flash[i] := *;
      }
    }

    method DriverProgram(off: nat, data: Data) returns (ok: bool)
      requires flash.Length == SIZE && off + |data| <= SIZE
      modifies flash
      ensures Within(old(flash[..]), flash[..], off, off + |data|)
      ensures sound ==> ok && flash[..] == Programmed(old(flash[..]), off, data)
    {
      ok := *;
      ok := ok || sound;
      if sound {
        forall i | 0 <= i < |data| {
          flash[off + i] := flash[off + i] & data[i];
        }
        return;
      }
      for i := off to off + |data|
        invariant Within(old(flash[..]), flash[..], off, off + |data|)
      {
        flash[i] := *;
      }
    }

    // -------------------------------------------------------------------
    // The commands
    // -------------------------------------------------------------------

    /** `failed`: a call of the driver did. */
    method Erase(off: nat, len: nat) returns (rc: Rc, ghost failed: bool)
      requires Valid()
      modifies flash
      ensures Valid() && Within(old(flash[..]), flash[..], off, off + len)
      ensures Within(old(flash[..]), flash[..], 0, PROTECTED)
      ensures EraseRc(off, len) != OK ==> rc == EraseRc(off, len) && flash[..] == old(flash[..])
      ensures EraseRc(off, len) == OK ==> rc == if failed then EIO else OK
      ensures EraseRc(off, len) == OK && sound ==> flash[..] == Erased(old(flash[..]), off, off + len)
      ensures sound ==> !failed
    {
      failed := false;
      if off + len > PROTECTED {
        return EACCESSDENIED, failed;
      }
      if off % SECTOR != 0 || len % SECTOR != 0 || len == 0 {
        return EINVAL, failed;
      }
      rc := OK;
      ghost var f, k := flash[..], 0;
      var pos := off;
      while pos < off + len
        invariant k >= 0 && pos == off + k * SECTOR && pos <= off + len
        invariant Within(f, flash[..], off, pos) && !failed
        invariant sound ==> flash[..] == Erased(f, off, pos)
      {
        var ok := DriverErase(pos);
        failed := !ok;
        if !ok {
          return EIO, failed;
        }
        pos, k := pos + SECTOR, k + 1;
      }
    }

    method Write(off: nat, data: Data) returns (rc: Rc, ghost failed: bool)
      requires Valid()
      modifies flash
      ensures Valid() && Within(old(flash[..]), flash[..], off, off + |data|)
      ensures Within(old(flash[..]), flash[..], 0, PROTECTED)
      ensures WriteRc(off, |data|) != OK ==> rc == WriteRc(off, |data|) && flash[..] == old(flash[..])
      ensures WriteRc(off, |data|) == OK ==> rc == if failed then EIO else OK
      ensures WriteRc(off, |data|) == OK && sound ==> flash[..] == Programmed(old(flash[..]), off, data)
      ensures sound ==> !failed
    {
      failed := false;
      if |data| == 0 || |data| > MAX_DATA {
        return EINVAL, failed;
      }
      if off + |data| > PROTECTED {
        return EACCESSDENIED, failed;
      }
      var ok := DriverProgram(off, data);
      failed := !ok;
      rc := if ok then OK else EIO;
    }

    method Read(off: nat, len: nat) returns (rc: Rc, data: Data, ghost failed: bool)
      requires Valid()
      ensures rc == OK ==> len > 0 && off + len <= PROTECTED && data == flash[off..off + len]
      ensures WriteRc(off, len) != OK ==> rc == WriteRc(off, len)
      ensures WriteRc(off, len) == OK ==> rc == if failed then EIO else OK
      ensures sound ==> !failed
    {
      data, failed := [], false;
      if len == 0 || len > MAX_DATA {
        return EINVAL, data, failed;
      }
      if off + len > PROTECTED {
        return EACCESSDENIED, data, failed;
      }
      var ok: bool := *;
      ok := ok || sound;
      failed := !ok;
      if !ok {
        return EIO, data, failed;
      }
      rc, data := OK, flash[off..off + len];
    }

    method Commit(stg: nat, len: nat) returns (rc: Rc)
      requires Valid()
      modifies this
      ensures Valid()
      ensures rc == if CommitAllowed(stg, len) then OK else EINVAL
      ensures rc == OK ==> scheduled && commitStg == stg && commitLen == len
      ensures rc != OK ==> scheduled == old(scheduled) && commitStg == old(commitStg) && commitLen == old(commitLen)
    {
      if len == 0 || stg + len > PROTECTED {
        return EINVAL;
      }
      var eraseEnd := RoundUp(len);
      if eraseEnd > PROTECTED {
        return EINVAL;
      }
      if stg < eraseEnd {
        return EINVAL;
      }
      commitStg, commitLen, scheduled := stg, len, true;
      rc := OK;
    }

    // -------------------------------------------------------------------
    // The trampoline
    // -------------------------------------------------------------------

    /** Erase the sectors of `from`, `from` + 4096, ... below `until`. */
    method EraseFrom(from: nat, until: nat)
      requires flash.Length == SIZE && until <= SIZE
      modifies flash
      ensures flash[..] == if from < until then Erased(old(flash[..]), RoundDown(from), ErasedUntil(from, until))
                           else old(flash[..])
    {
      ghost var f, k := flash[..], 0;
      var pos := from;
      while pos < until
        invariant k >= 0 && pos == from + k * SECTOR && (k == 0 || pos < until + SECTOR)
        invariant flash[..] == if k == 0 then f else Erased(f, RoundDown(from), RoundDown(from) + k * SECTOR)
      {
        assert RoundDown(pos) == RoundDown(from) + k * SECTOR;
        EraseSector(pos);
        pos, k := pos + SECTOR, k + 1;
      }
      assert from < until ==> k * SECTOR == RoundUp(until - from);
    }

    /** Copy `len` bytes down from the staging area, page by page. */
    method CopyDown(stg: nat, len: nat)
      requires flash.Length == SIZE && CommitAllowed(stg, len)
      requires forall i: nat | i < len :: flash[i] == 0xFF
      modifies flash
      ensures flash[..] == Copied(old(flash[..]), stg, len)
    {
      ghost var g, k := flash[..], 0;
      var pos := 0;
      while pos < len
        invariant k >= 0 && pos == k * PAGE
        invariant forall i: nat | i < pos && i < len :: flash[i] == g[stg + i]
        invariant forall i: nat | pos <= i < SIZE || len <= i < SIZE :: flash[i] == g[i]
      {
        var chunk := len - pos;
        if chunk > PAGE {
          chunk := PAGE;
        }
        var buf := flash[stg + pos..stg + pos + chunk];
        assert len <= RoundUp(len) <= stg;
        assert buf == g[stg + pos..stg + pos + chunk];
        ghost var before := flash[..];
        ProgramPage(pos, buf);
        forall i: nat | i < SIZE
          ensures flash[i] == if pos <= i < pos + chunk then g[stg + i] else before[i]
        {
          assert flash[..][i] == Programmed(before, pos, buf)[i];
        }
        pos, k := pos + PAGE, k + 1;
      }
    }

    /** Replace the firmware: erase up to the staging area, copy, clean up. */
    method Trampoline()
      requires Valid() && scheduled
      modifies flash
      ensures flash[..] == Restored(old(flash[..]), commitStg, commitLen)
    {
      var stg, len := commitStg, commitLen;
      EraseFrom(0, stg);
      CopyDown(stg, len);
      EraseFrom(stg, BANK);
      PhasesMakeRestored(old(flash[..]), stg, len);
    }
  }

  function ErasedUntil(from: nat, until: nat): int
    requires from <= until
  {
    RoundDown(from) + RoundUp(until - from)
  }

  function Copied(f: Data, stg: nat, len: nat): (r: Data)
    requires stg + len <= |f|
    ensures |r| == |f|
  {
    seq(|f|, i requires 0 <= i < |f| => if i < len then f[stg + i] else f[i])
  }

  lemma PhasesMakeRestored(f: Data, stg: nat, len: nat)
    requires |f| == SIZE && CommitAllowed(stg, len)
    ensures var g := Copied(Erased(f, 0, RoundUp(stg)), stg, len);
            Restored(f, stg, len) == if stg < BANK then Erased(g, RoundDown(stg), ErasedUntil(stg, BANK)) else g
    ensures ErasedUntil(0, stg) == RoundUp(stg)
  {
  }

  lemma FilledRestores(f: Data, stg: nat, len: nat)
    requires |f| == SIZE && CommitAllowed(stg, len)
    requires forall k: nat | stg <= k < stg + len && k < RoundUp(stg) :: f[k] == 0xFF
    ensures Restored(f, stg, len)[..len] == f[stg..stg + len]
  {
  }

  /** The restore reproduces the staged bytes exactly when the staging offset is
      sector aligned, or the bytes before the next sector boundary happen to be
      0xFF. */
  lemma RestoresStaged(f: Data, stg: nat, len: nat)
    requires |f| == SIZE && CommitAllowed(stg, len)
    ensures Restored(f, stg, len)[..len] == f[stg..stg + len] <==>
            forall k: nat | stg <= k < stg + len && k < RoundUp(stg) :: f[k] == 0xFF
  {
    var r, s := Restored(f, stg, len)[..len], f[stg..stg + len];
    if r == s {
      forall k: nat | stg <= k < stg + len && k < RoundUp(stg)
        ensures f[k] == 0xFF
      {
        assert r[k - stg] == s[k - stg];
      }
    }
    if forall k: nat | stg <= k < stg + len && k < RoundUp(stg) :: f[k] == 0xFF {
      FilledRestores(f, stg, len);
    }
  }

  /** So the commit handler, which does not check it, is right for every flash
      content exactly when the offset is aligned. */
  lemma AlignmentMatters(stg: nat, len: nat)
    requires CommitAllowed(stg, len)
    ensures (forall f: Data | |f| == SIZE :: Restored(f, stg, len)[..len] == f[stg..stg + len])
            <==> stg % SECTOR == 0
  {
    forall f: Data | |f| == SIZE
      ensures stg % SECTOR == 0 ==> Restored(f, stg, len)[..len] == f[stg..stg + len]
    {
      RestoresStaged(f, stg, len);
    }
    if stg % SECTOR != 0 {
      var zeros: Data := seq(SIZE, _ => 0);
      RestoresStaged(zeros, stg, len);
      assert stg < RoundUp(stg) && zeros[stg] != 0xFF;
    }
  }

  /** Whatever was staged, the calibration and address sectors stay. */
  lemma ProtectedStays(f: Data, stg: nat, len: nat)
    requires |f| == SIZE && CommitAllowed(stg, len)
    ensures Restored(f, stg, len)[PROTECTED..] == f[PROTECTED..]
  {
    assert RoundUp(stg) <= PROTECTED;
  }
}
