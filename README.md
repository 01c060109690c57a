# CHIP-8 memory and program loader

This project models the memory of a CHIP-8 machine and the machine's program
loader, as `src/main.rs` implements them.

- `Ram` is a fixed buffer of 4096 bytes. It is created all zeros, and it is read
  and written one byte at a time at a 16-bit address.
- `Chip8` owns one `Ram`. `load_rom` copies a program image into it byte by byte,
  starting at address 0x200. By CHIP-8 convention, the 512 bytes below 0x200 are
  left for the interpreter.

Everything is in `chip8.dfy`, in module `Machine`:

- `Byte` and `U16` are the subset types of the Rust `u8` and `u16`.
- `Ram` is a class that holds an `array<Byte>`. Its methods update the array in
  place, so the class keeps the source's mutation model.
- `Loaded(m, rom)` is the memory after loading. It is defined as the loader works:
  one single-byte store per image byte, in order.
- `Chip8.LoadRom` runs the same loop as the source and is proved to compute
  `Loaded`.
- Several lemmas then describe `Loaded`:
  - where each byte lands;
  - that it equals a three-way splice;
  - that loading twice is the same as loading once;
  - that the old contents of the window play no part in the result;
  - what a freshly created machine holds after a load.

In the source, a write at an address of 4096 or more indexes past the end of the
array, and Rust panics. The model makes `address < 4096` a precondition of
`WriteByte` and `ReadByte`. For the same reason it requires an image of at most
3584 bytes (4096 − 0x200). With that bound, `0x200 + i` always fits in a `u16`, so
the source's `as u16` cast never truncates.

Two points where the code and the machine's general description differ. The model
follows the code in both:

- The description says RAM is seeded with the 16 hex-digit font sprites. In the
  code, `Ram::new` zero-fills the buffer (src/main.rs:9).
- The description says an oversized image is refused with an out-of-bounds error
  and leaves memory untouched. In the code, `load_rom` has no length check. It
  writes bytes 0x200..0xFFF and then panics at index 4096, so the load is not
  all-or-nothing. The model therefore takes the length bound as a precondition
  and does not claim atomicity.

## Model

| member | source | states |
|---|---|---|
| `Machine.Ram.constructor` | src/main.rs:8-10 | a new RAM has exactly 4096 bytes and every one is 0 |
| `Machine.Ram.WriteByte` | src/main.rs:11-13 | requires address < 4096; afterwards the byte at the address is the value, every other address is unchanged, and the length stays 4096 |
| `Machine.Ram.ReadByte` | src/main.rs:14-16 | requires address < 4096; returns the byte stored at the address and modifies nothing |
| `Machine.Chip8.constructor` | src/main.rs:23-25 | a new machine owns a fresh RAM of 4096 zero bytes |
| `Machine.Chip8.LoadRom` | src/main.rs:27-32 | requires an image of at most 4096 − 0x200 bytes; afterwards memory equals `Loaded` of the old memory, byte i of the image is at 0x200 + i, and every address outside the window [0x200, 0x200 + length) is unchanged |
| `Machine.Loaded` | src/main.rs:28-31 | the memory after the per-byte write loop; it always has 4096 bytes |
| `Machine.LoadedAt` | src/main.rs:28-31 | after loading, address a holds image byte a − 0x200 inside the window and its old byte everywhere else |
| `Machine.LoadedIsSplice` | src/main.rs:27-32 | loading equals the old bytes below 0x200, then the image, then the old bytes after the image |
| `Machine.LoadIdempotent` | src/main.rs:27-32 | loading the same image twice gives the same memory as loading it once |
| `Machine.LoadOverwritesWindow` | src/main.rs:27-32 | two memories that agree outside the image's window agree after the image is loaded |
| `Machine.LoadIntoFreshMemory` | src/main.rs:8-10 | after loading into all-zero memory: the image sits at 0x200, and every byte below 0x200 and after the image is 0 |

## Left out

- `main` (src/main.rs:35-43) is left out. It opens and reads a ROM file, unwraps I/O errors and prints a RAM dump; all of that is I/O.
- `Machine.Chip8.LoadRom` does not model what happens to an image longer than 3584 bytes. The source writes up to address 0xFFF and then panics; here the length bound is a precondition.
- `Machine.Ram.WriteByte` and `Machine.Ram.ReadByte` do not model what happens at an address of 4096 or more. The source panics; here the bound is a precondition.
- Rust's `Debug` derive and the `usize` conversion of addresses are left out. Addresses are integers in the `U16` range.
- The machine's description also has an instruction decoder and executor, a display, a call stack, timers, a keypad and font sprites. None of these exists in the code, so none is modelled.
