/** config.c: the settings table in place, saved to and loaded from the file system. */
module Configs {
  import opened CTypes
  import Volume
  import VolumeTheorems
  import opened FileSystems
  import opened ConfigText
  import opened ConfigProofs
  import opened ConfigLoads

  /** "acharyaos.cfg" */
  const FILE_NAME: CString := [97, 99, 104, 97, 114, 121, 97, 111, 115, 46, 99, 102, 103]

  class Config {
    const fs: FileSystem
    const entries: array<Entry>

    constructor (fs: FileSystem)
      ensures this.fs == fs && entries.Length == 16 && fresh(entries)
    {
      this.fs := fs;
      entries := new Entry[16](_ => UNUSED);
    }

    predicate Valid() {
      entries.Length == 16 && fs.Valid()
    }

    ghost function Table(): Table
      requires Valid()
      reads entries
    {
      entries[..]
    }

    method FindIndex(key: CString) returns (r: int)
      requires Valid()
      ensures r == FindFrom(Table(), key, 0)
    {
      var i := 0;
      while i < 16
        invariant 0 <= i <= 16 && FindFrom(Table(), key, 0) == FindFrom(Table(), key, i)
      {
        if entries[i].used && entries[i].key == key {
          return i;
        }
        i := i + 1;
      }
      return -1;
    }

    method FindFreeIndex() returns (r: int)
      requires Valid()
      ensures r == FreeFrom(Table(), 0)
    {
      var i := 0;
      while i < 16
        invariant 0 <= i <= 16 && FreeFrom(Table(), 0) == FreeFrom(Table(), i)
      {
        if !entries[i].used {
          return i;
        }
        i := i + 1;
      }
      return -1;
    }

    /** `config_copy_text`: the string a character array of the given size holds after the copy. */
    static method CopyText(size: nat, src: CString) returns (dest: CString)
      requires size > 0
      ensures dest == Clip(src, size)
    {
      dest := [];
      var i := 0;
      while i + 1 < size && At(src, i) != 0
        invariant 0 <= i <= |src| && i < size && dest == src[..i]
      {
        dest := Append(dest, [src[i]]);
        i := i + 1;
      }
    }

    method ResetDefaults()
      requires Valid()
      modifies entries
      ensures Table() == Defaults()
    {
      for i := 0 to 16
        invariant forall j :: 0 <= j < i ==> entries[j] == UNUSED
      {
        entries[i] := UNUSED;
      }
      var i := 0;
      while i < 4
        invariant 0 <= i <= 4
        invariant forall j :: 0 <= j < 16 ==> entries[j] == if j < i then DefaultEntry(j) else UNUSED
      {
        var idx := FindFreeIndex();
        assert !Table()[i].used;
        assert forall j :: 0 <= j < i ==> Table()[j].used;
        if idx < 0 {
          break;
        }
        var k := CopyText(32, DefaultEntry(i).key);
        var v := CopyText(96, DefaultEntry(i).value);
        entries[idx] := Entry(k, v, true);
        i := i + 1;
      }
    }

    /** The slot of a key: its own, or the first free one with the key copied in, or -1. */
    method ClaimSlot(key: CString) returns (idx: int)
      requires Valid()
      modifies entries
      ensures var t, found := old(Table()), FindFrom(old(Table()), key, 0);
              && idx == (if found < 0 then FreeFrom(t, 0) else found)
              && Table() == if idx < 0 || 0 <= found then t
                            else t[idx := t[idx].(used := true, key := Clip(key, 32))]
    {
      idx := FindIndex(key);
      if idx < 0 {
        idx := FindFreeIndex();
        if 0 <= idx {
          var k := CopyText(32, key);
          entries[idx] := entries[idx].(used := true, key := k);
        }
      }
    }

    method SetValue(key: CString, value: CString) returns (r: int)
      requires Valid()
      modifies entries
      ensures Table() == Set(old(Table()), key, value).0 && r == Set(old(Table()), key, value).1
    {
      if key == [] {
        return -1;
      }
      var idx := ClaimSlot(key);
      if idx < 0 {
        return -1;
      }
      var v := CopyText(96, value);
      ghost var claimed := Table();
      entries[idx] := entries[idx].(value := v);
      assert Table() == claimed[idx := claimed[idx].(value := v)];
      SetByClaim(old(Table()), key, value, idx, claimed);
      return 0;
    }

    method GetValue(key: CString, size: nat) returns (r: int, out: CString)
      requires Valid()
      ensures var i := FindFrom(Table(), key, 0);
              if size == 0 || i < 0 then r == -1 && out == []
              else r == 0 && out == Clip(Table()[i].value, size)
    {
      if size == 0 {
        return -1, [];
      }
      var idx := FindIndex(key);
      if idx < 0 {
        return -1, [];
      }
      out := CopyText(size, entries[idx].value);
      return 0, out;
    }

    // ----- Saving -----

    /** One copy loop of `config_save`, ending with the string or one byte before the end of the buffer. */
    static method AppendText(buffer: array<byte>, pos: nat, s: CString, ghost before: seq<byte>) returns (end: nat)
      requires buffer.Length == 1024 && pos <= 1023 && buffer[..pos] == Cut(before, 1023)
      modifies buffer
      ensures pos <= end <= 1023 && buffer[..end] == Cut(before + s, 1023)
    {
      end := pos;
      var j := 0;
      while At(s, j) != 0 && end + 1 < 1024
        invariant 0 <= j <= |s| && end <= 1023 && pos <= end && buffer[..end] == Cut(before + s[..j], 1023)
        decreases |s| - j
      {
        buffer[end] := s[j];
        CutMore(before, s, j);
        end := end + 1;
        j := j + 1;
      }
      CutDone(before, s, j);
    }

    /** One entry of `config_save`; `full` is the loop's early exit. */
    static method AppendEntry(buffer: array<byte>, pos: nat, e: Entry, ghost before: seq<byte>)
      returns (end: nat, full: bool)
      requires buffer.Length == 1024 && pos <= 1023 && buffer[..pos] == Cut(before, 1023)
      modifies buffer
      ensures pos <= end <= 1023 && buffer[..end] == Cut(before + Line(e), 1023)
      ensures full ==> |before + Line(e)| >= 1023
    {
      end := AppendText(buffer, pos, e.key, before);
      if end + 1 >= 1024 {
        CutFull(before, e.key, Line(e));
        return end, true;
      }
      buffer[end] := EQUALS;
      end := end + 1;
      assert buffer[..end] == before + e.key + [EQUALS] == Cut(before + e.key + [EQUALS], 1023);
      end := AppendText(buffer, end, e.value, before + e.key + [EQUALS]);
      assert before + e.key + [EQUALS] + e.value == before + Body(e);
      if end + 1 >= 1024 {
        CutFull(before, Body(e), Line(e));
        return end, true;
      }
      buffer[end] := LF;
      end := end + 1;
      assert buffer[..end] == before + Body(e) + [LF] == before + Line(e);
      return end, false;
    }

    /** The text of the table, cut off at 1023 bytes. */
    method Serialise(buffer: array<byte>) returns (pos: nat)
      requires Valid() && buffer.Length == 1024
      modifies buffer
      ensures pos <= 1023 && buffer[..pos] == Saved(Table())
    {
      pos := 0;
      var i := 0;
      ghost var t := Table();
      while i < 16
        invariant 0 <= i <= 16 && pos <= 1023 && Table() == t
        invariant buffer[..pos] == Cut(Lines(t, i), 1023)
      {
        if entries[i].used {
          var full;
          pos, full := AppendEntry(buffer, pos, entries[i], Lines(t, i));
          if full {
            CutStays(t, i + 1);
            break;
          }
        }
        i := i + 1;
      }
      assert buffer[..pos] == Cut(Full(t), 1023);
      if pos == 0 {
        buffer[pos] := LF;
        pos := pos + 1;
      }
    }

    /** `config_save`: the serialised table becomes the contents of the settings file. */
    method Save() returns (r: int, ghost k: nat)
      requires Valid()
      modifies fs`usedFiles, fs.entries, fs.cache, fs.dev`sectors, fs.dev`history, fs.dev`faults
      ensures r == 0 || r == -1
      ensures Outcome(old(fs.Vol()), Volume.Write(FILE_NAME, Saved(Table())), fs.Vol(),
                      old(fs.dev.history), fs.dev.history, k, r, old(fs.dev.faults) < fs.dev.faults)
      ensures old(fs.dev.faults) <= fs.dev.faults
    {
      var buffer := new byte[1024](_ => 0);
      var pos := Serialise(buffer);
      r, k := fs.WriteFile(FILE_NAME, buffer[..pos]);
    }

    // ----- Loading -----

    /** The character loop of `config_next_line`. */
    static method TakeLineAt(s: CString, p: nat) returns (line: CString, q: nat)
      requires p <= |s|
      ensures q <= |s| && TakeLine(s, p, 129).0 == line && TakeLine(s, p, 129).1 == q
    {
      q, line := p, [];
      TakingStart(s, p);
      while At(s, q) != 0 && At(s, q) != LF && |line| + 1 < 130
        invariant p <= q <= |s| && |line| <= 129 && Taking(s, p, line, q)
        decreases |s| - q
      {
        TakingNext(s, p, line, q);
        if At(s, q) != CR {
          line := Append(line, [s[q]]);
        }
        q := q + 1;
      }
    }

    /** `config_next_line`, on a position in the text. */
    static method NextLineAt(s: CString, p: nat) returns (line: CString, next: nat)
      requires p <= |s|
      ensures next <= |s| && (p < |s| ==> p < next)
      ensures NextLine(s, p).0 == line && NextLine(s, p).1 == next
    {
      var q := p;
      while At(s, q) == CR || At(s, q) == LF
        invariant p <= q <= |s| && SkipBreaks(s, p) == SkipBreaks(s, q)
        decreases |s| - q
      {
        q := q + 1;
      }
      line, q := TakeLineAt(s, q);
      ghost var stop := q;
      while At(s, q) != 0 && At(s, q) != LF
        invariant stop <= q <= |s| && SkipLine(s, stop) == SkipLine(s, q)
        decreases |s| - q
      {
        q := q + 1;
      }
      if At(s, q) == LF {
        q := q + 1;
      }
      next := q;
    }

    /** The body of the loop in `config_load`. */
    method ApplyLineInPlace(line: CString)
      requires Valid()
      modifies entries
      ensures Table() == ApplyLine(old(Table()), line)
    {
      if line == [] {
        return;
      }
      var eq := 0;
      while At(line, eq) != 0 && At(line, eq) != EQUALS
        invariant eq <= |line| && EqualsFrom(line, eq) == EqualsFrom(line, 0)
        decreases |line| - eq
      {
        eq := eq + 1;
      }
      if At(line, eq) != EQUALS {
        return;
      }
      var _ := SetValue(Sub(line, 0, eq), From(line, eq + 1));
    }

    /** `config_load`: the defaults, overlaid with the file if it can be read; always returns 0. */
    method Load() returns (r: int, ghost ok: bool)
      requires Valid()
      modifies entries, fs.dev`faults
      ensures r == 0
      ensures ok ==>
                && Volume.Readable(fs.Vol(), FILE_NAME, 1024)
                && Table() == Loaded(VolumeTheorems.Delivered(fs.Vol(), FILE_NAME, 1024))
      ensures !ok ==> Table() == Defaults()
      ensures !ok && Volume.Readable(fs.Vol(), FILE_NAME, 1024) ==> old(fs.dev.faults) < fs.dev.faults
    {
      ResetDefaults();
      var buffer := new byte[1024](_ => 0);
      FetchFits(fs.Vol(), FILE_NAME, 1024, 2);
      var e, size := fs.ReadFile(FILE_NAME, buffer, 1024);
      ok := e == 0;
      if e != 0 {
        return 0, ok;
      }
      ghost var file := VolumeTheorems.Delivered(fs.Vol(), FILE_NAME, 1024);
      assert buffer[..size] == file;
      if size >= 1024 {
        size := 1023;
      }
      buffer[size] := 0;
      assert buffer[..size] == Cut(file, 1023);
      ApplyText(Terminated(buffer[..size]));
      return 0, ok;
    }

    /** The line loop of `config_load`. */
    method ApplyText(text: CString)
      requires Valid() && Table() == Defaults()
      modifies entries
      ensures Table() == LoadText(text, 0, Defaults())
    {
      var p := 0;
      while At(text, p) != 0
        invariant p <= |text| && SameLoad(text, p, Table(), 0, Defaults())
        decreases |text| - p
      {
        ghost var t, q := Table(), p;
        var line;
        line, p := NextLineAt(text, p);
        ApplyLineInPlace(line);
        assert SameLoad(text, p, Table(), q, t);
        SameLoadChains(text, p, Table(), q, t, 0, Defaults());
      }
    }
  }

  /** Halfway through a line: the characters taken so far, and the position to go on from. */
  predicate Taking(s: CString, p: nat, line: CString, q: nat)
    requires p <= |s| && q <= |s| && |line| <= 129
  {
    var r := TakeLine(s, q, 129 - |line|);
    TakeLine(s, p, 129).0 == Append(line, r.0) && TakeLine(s, p, 129).1 == r.1
  }

  lemma TakingStart(s: CString, p: nat)
    requires p <= |s|
    ensures Taking(s, p, [], p)
  {
  }

  /** Taking one more character moves it from the rest to the line; a carriage return is dropped. */
  lemma TakingNext(s: CString, p: nat, line: CString, q: nat)
    requires p <= |s| && q < |s| && |line| < 129 && Taking(s, p, line, q) && s[q] != LF
    ensures if s[q] == CR then Taking(s, p, line, q + 1) else Taking(s, p, Append(line, [s[q]]), q + 1)
  {
    if s[q] != CR {
      MoveFirst(line, s[q], TakeLine(s, q + 1, 128 - |line|).0);
    }
  }

  lemma MoveFirst(line: CString, c: byte, r: CString)
    requires c != 0
    ensures Append(line, Prepend(c, r)) == Append(Append(line, [c]), r)
  {
  }

  /**
   * Save, then load, through a file of any findable name: on a healthy volume with room for it, the same
   * table comes back, slot for slot, exactly if it is one that survives, whatever was in memory
   * before the load.
   */
  lemma SettingsSurvive(v: Volume.Volume, file: CString, t: Table, n: nat)
    requires Volume.Healthy(v) && |file| < 16 && Packed(t, n)
    requires var op := Volume.Write(file, Saved(t));
             Volume.Accepts(v, op) && Volume.InRange(v.disk, Volume.Plan(v, op))
    ensures var w := VolumeTheorems.Finish(v, Volume.Write(file, Saved(t)));
            && Volume.Healthy(w) && Volume.Readable(w, file, 1024)
            && (Loaded(VolumeTheorems.Delivered(w, file, 1024)) == t <==> Survives(t))
  {
    var op := Volume.Write(file, Saved(t));
    var w := VolumeTheorems.Finish(v, op);
    VolumeTheorems.FinishRefinesMap(v, op);
    VolumeTheorems.ReadReturnsFile(w, file, 1024);
    assert VolumeTheorems.Delivered(w, file, 1024) == Saved(t);
    RoundTripIffSound(t, n);
  }

  /** The settings file is readable, and loads to the table exactly if that is one that survives. */
  predicate Restores(v: Volume.Volume, file: CString, t: Table) {
    && Volume.Readable(v, file, 1024)
    && (Loaded(VolumeTheorems.Delivered(v, file, 1024)) == t <==> Survives(t))
  }

  /** A successful save leaves such a file. */
  lemma SaveRestores(v: Volume.Volume, w: Volume.Volume, h0: seq<Volume.SectorWrite>, h: seq<Volume.SectorWrite>,
                     k: nat, faulted: bool, file: CString, t: Table, n: nat)
    requires Volume.Healthy(v) && |file| < 16 && Packed(t, n)
    requires Outcome(v, Volume.Write(file, Saved(t)), w, h0, h, k, 0, faulted)
    ensures Restores(w, file, t)
  {
    SuccessIsFinish(v, Volume.Write(file, Saved(t)), w, h0, h, k, faulted);
    SettingsSurvive(v, file, t, n);
  }

  /** Saving on a healthy volume. */
  method SaveOn(c: Config, ghost n: nat) returns (saved: int)
    requires c.Valid() && Volume.Healthy(c.fs.Vol()) && Packed(c.Table(), n)
    modifies c.fs`usedFiles, c.fs.entries, c.fs.cache
    modifies c.fs.dev`sectors, c.fs.dev`history, c.fs.dev`faults
    ensures saved == 0 ==> Restores(c.fs.Vol(), FILE_NAME, c.Table())
    ensures old(c.fs.dev.faults) <= c.fs.dev.faults && c.Table() == old(c.Table())
  {
    ghost var v, h, f := c.fs.Vol(), c.fs.dev.history, c.fs.dev.faults;
    ghost var k;
    saved, k := c.Save();
    if saved == 0 {
      SaveRestores(v, c.fs.Vol(), h, c.fs.dev.history, k, f < c.fs.dev.faults, FILE_NAME, c.Table(), n);
    }
  }

  /**
   * `config_save` and then `config_load` on a healthy volume: when the save succeeds, the load reads the file
   * unless the device fails, and then the table is back exactly if it is one that survives.
   */
  method SaveThenLoad(c: Config, ghost n: nat) returns (saved: int, ghost loaded: bool)
    requires c.Valid() && Volume.Healthy(c.fs.Vol()) && Packed(c.Table(), n)
    modifies c.entries, c.fs`usedFiles, c.fs.entries, c.fs.cache
    modifies c.fs.dev`sectors, c.fs.dev`history, c.fs.dev`faults
    ensures saved == 0 && c.fs.dev.faults == old(c.fs.dev.faults) ==> loaded
    ensures saved == 0 && loaded ==> (c.Table() == old(c.Table()) <==> Survives(old(c.Table())))
  {
    saved := SaveOn(c, n);
    var r;
    r, loaded := c.Load();
  }

  /** Claiming a slot and storing the value there sets the key. */
  lemma SetByClaim(t: Table, key: CString, value: CString, idx: int, claimed: Table)
    requires key != [] && 0 <= idx < 16
    requires var found := FindFrom(t, key, 0);
             && idx == (if found < 0 then FreeFrom(t, 0) else found)
             && claimed == if 0 <= found then t else t[idx := t[idx].(used := true, key := Clip(key, 32))]
    ensures Set(t, key, value) == (claimed[idx := claimed[idx].(value := Clip(value, 96))], 0)
  {
    var e := claimed[idx].(value := Clip(value, 96));
    assert claimed[idx := e] == t[idx := e];
  }

  lemma CutMore(before: seq<byte>, s: seq<byte>, j: nat)
    requires j < |s| && |Cut(before + s[..j], 1023)| < 1023
    ensures Cut(before + s[..j + 1], 1023) == Cut(before + s[..j], 1023) + [s[j]]
  {
  }

  lemma CutDone(before: seq<byte>, s: seq<byte>, j: nat)
    requires j <= |s| && (j == |s| || |Cut(before + s[..j], 1023)| == 1023)
    ensures Cut(before + s[..j], 1023) == Cut(before + s, 1023)
  {
  }

  lemma CutFull(before: seq<byte>, part: seq<byte>, whole: seq<byte>)
    requires part <= whole && |Cut(before + part, 1023)| == 1023
    ensures |before + whole| >= 1023 && Cut(before + part, 1023) == Cut(before + whole, 1023)
  {
  }

  /** Once 1023 bytes are there, later lines change nothing. */
  lemma CutStays(t: Table, i: nat)
    requires i <= 16 && |Lines(t, i)| >= 1023
    ensures Cut(Lines(t, i), 1023) == Cut(Full(t), 1023)
  {
    LinesPrefix(t, i, 16);
  }
}
