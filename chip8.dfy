/** A model of the memory of a CHIP-8 machine and of its program loader.
    The machine owns a 4096-byte RAM that starts out all zeros; a program
    image is copied into it, one byte at a time, from address 0x200 on. */
module Machine {

  /** An unsigned 8-bit value (Rust `u8`). */
  type Byte = x: int | 0 <= x < 0x100

  /** An unsigned 16-bit value (Rust `u16`), the type of a RAM address. */
  type U16 = x: int | 0 <= x < 0x1_0000

  /** Number of bytes of RAM. */
  const MemorySize: nat := 4096

  /** Address at which a program image is loaded; the bytes below it are
      reserved for the interpreter. */
  const ProgramOffset: nat := 0x200

  /** The longest image that fits between ProgramOffset and the end of RAM. */
  const MaxRomSize: nat := MemorySize - ProgramOffset

  /** The memory `m` after the loader has written the image `rom`, defined
      the way the loader works: the last byte of `rom` is written, as a
      single-byte store at ProgramOffset + its index, on top of the memory
      obtained by loading all the bytes before it. */
  function Loaded(m: seq<Byte>, rom: seq<Byte>): (r: seq<Byte>)
    requires |m| == MemorySize && |rom| <= MaxRomSize
    ensures |r| == MemorySize
    decreases |rom|
  {
    if rom == [] then m
    else Loaded(m, rom[..|rom| - 1])[ProgramOffset + |rom| - 1 := rom[|rom| - 1]]
  }

  /** Byte `a` of the loaded memory is byte `a - ProgramOffset` of the image
      when `a` falls inside the image's window, and the old byte otherwise. */
  lemma {:induction false} LoadedAt(m: seq<Byte>, rom: seq<Byte>, a: nat)
    requires |m| == MemorySize && |rom| <= MaxRomSize && a < MemorySize
    ensures Loaded(m, rom)[a] ==
      if ProgramOffset <= a < ProgramOffset + |rom| then rom[a - ProgramOffset] else m[a]
  {
    if rom != [] {
      LoadedAt(m, rom[..|rom| - 1], a);
    }
  }

  /** An independent description of loading: the image replaces exactly the
      window [ProgramOffset, ProgramOffset + |rom|) and nothing else. */
  lemma {:induction false} LoadedIsSplice(m: seq<Byte>, rom: seq<Byte>)
    requires |m| == MemorySize && |rom| <= MaxRomSize
    ensures Loaded(m, rom) == m[..ProgramOffset] + rom + m[ProgramOffset + |rom|..]
  {
    var before, after := m[..ProgramOffset], m[ProgramOffset + |rom|..];
    var splice := before + rom + after;
    assert |splice| == MemorySize;
    forall a | 0 <= a < MemorySize
      ensures Loaded(m, rom)[a] == splice[a]
    {
      LoadedAt(m, rom, a);
      if a < ProgramOffset {
        assert splice[a] == before[a];
      } else if a < ProgramOffset + |rom| {
        assert splice[a] == rom[a - ProgramOffset];
      } else {
        assert splice[a] == after[a - ProgramOffset - |rom|];
      }
    }
  }

  /** Loading the same image twice leaves the same memory as loading it once. */
  lemma LoadIdempotent(m: seq<Byte>, rom: seq<Byte>)
    requires |m| == MemorySize && |rom| <= MaxRomSize
    ensures Loaded(Loaded(m, rom), rom) == Loaded(m, rom)
  {
    forall a | 0 <= a < MemorySize
      ensures Loaded(Loaded(m, rom), rom)[a] == Loaded(m, rom)[a]
    {
      LoadedAt(Loaded(m, rom), rom, a);
      LoadedAt(m, rom, a);
    }
  }

  /** Memories that agree outside the image's window agree once the image is
      loaded: what was in the window before has no influence. */
  lemma LoadOverwritesWindow(m1: seq<Byte>, m2: seq<Byte>, rom: seq<Byte>)
    requires |m1| == MemorySize && |m2| == MemorySize && |rom| <= MaxRomSize
    requires forall a :: 0 <= a < MemorySize && !(ProgramOffset <= a < ProgramOffset + |rom|) ==> m1[a] == m2[a]
    ensures Loaded(m1, rom) == Loaded(m2, rom)
  {
    forall a | 0 <= a < MemorySize
      ensures Loaded(m1, rom)[a] == Loaded(m2, rom)[a]
    {
      LoadedAt(m1, rom, a);
      LoadedAt(m2, rom, a);
    }
  }

  /** Loading into a freshly zeroed memory: the image sits at ProgramOffset
      and every other byte is 0. */
  lemma {:induction false} LoadIntoFreshMemory(m: seq<Byte>, rom: seq<Byte>, a: nat)
    requires |m| == MemorySize && |rom| <= MaxRomSize && a < MemorySize
    requires forall b :: 0 <= b < MemorySize ==> m[b] == 0
    ensures a < ProgramOffset ==> Loaded(m, rom)[a] == 0
    ensures ProgramOffset <= a < ProgramOffset + |rom| ==> Loaded(m, rom)[a] == rom[a - ProgramOffset]
    ensures ProgramOffset + |rom| <= a ==> Loaded(m, rom)[a] == 0
  {
    LoadedAt(m, rom, a);
  }

  /** The machine's RAM: a fixed buffer of MemorySize bytes, updated in place. */
  class Ram {
    var mem: array<Byte>

    ghost predicate Valid()
      reads this
    {
      mem.Length == MemorySize
    }

    /** The bytes of RAM, address by address. */
    ghost function Contents(): (s: seq<Byte>)
      reads this, mem
      requires Valid()
      ensures |s| == MemorySize
    {
      mem[..]
    }

    /** A new RAM has MemorySize bytes, every one of them 0. */
    constructor ()
      ensures Valid() && fresh(mem)
      ensures forall a :: 0 <= a < MemorySize ==> Contents()[a] == 0
    {
      mem := new Byte[MemorySize](_ => 0);
    }

    /** Stores `value` at `address`; an address past the end of RAM is an
        out-of-bounds index, so callers must stay below MemorySize. */
    method WriteByte(address: U16, value: Byte)
      requires Valid() && address < MemorySize
      modifies mem
      ensures Valid()
      ensures Contents() == old(Contents())[address := value]
      ensures Contents()[address] == value
      ensures forall a :: 0 <= a < MemorySize && a != address ==> Contents()[a] == old(Contents())[a]
    {
      mem[address] := value;
    }

    /** Returns the byte at `address`, which must be below MemorySize; RAM is
        left as it was. */
    method ReadByte(address: U16) returns (value: Byte)
      requires Valid() && address < MemorySize
      ensures value == Contents()[address]
    {
      value := mem[address];
    }
  }

  /** The machine: for now it owns nothing but its RAM. */
  class Chip8 {
    var ram: Ram

    ghost predicate Valid()
      reads this, ram
    {
      ram.Valid()
    }

    /** The machine's memory, address by address. */
    ghost function Memory(): (s: seq<Byte>)
      reads this, ram, ram.mem
      requires Valid()
      ensures |s| == MemorySize
    {
      ram.Contents()
    }

    /** A new machine has a new, all-zero RAM. */
    constructor ()
      ensures Valid() && fresh(ram) && fresh(ram.mem)
      ensures forall a :: 0 <= a < MemorySize ==> Memory()[a] == 0
    {
      ram := new Ram();
    }

    /** Copies `rom` into RAM, byte `i` to address ProgramOffset + i, one
        single-byte write per iteration. An image longer than MaxRomSize
        would run past the end of RAM part-way through the copy. */
    method LoadRom(rom: seq<Byte>)
      requires Valid() && |rom| <= MaxRomSize
      modifies ram.mem
      ensures Valid()
      ensures Memory() == Loaded(old(Memory()), rom)
      ensures forall i :: 0 <= i < |rom| ==> Memory()[ProgramOffset + i] == rom[i]
      ensures forall a :: 0 <= a < MemorySize && !(ProgramOffset <= a < ProgramOffset + |rom|) ==>
                Memory()[a] == old(Memory())[a]
    {
      for i := 0 to |rom|
        invariant Valid()
        invariant Memory() == Loaded(old(Memory()), rom[..i])
      {
        ram.WriteByte(ProgramOffset + i, rom[i]);
        assert rom[..i + 1][..i] == rom[..i];
      }
      assert rom[..|rom|] == rom;
      forall a | 0 <= a < MemorySize
        ensures Memory()[a] ==
          if ProgramOffset <= a < ProgramOffset + |rom| then rom[a - ProgramOffset] else old(Memory())[a]
      {
        LoadedAt(old(Memory()), rom, a);
      }
    }
  }
}
