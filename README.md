# Highlight state of the nvui Neovim client, in Dafny

This project models `src/hlstate.hpp` of nvui, a Neovim GUI client. The
header holds the store that keeps Neovim's highlight state on the client
side:

- `Color(uint32)` unpacks a packed `0xRRGGBB` integer into three 8-bit
  channels by masking and shifting.
- `Kind`, `AttrState` and `HLAttr` are the value types of one highlight
  attribute.
- `HLState` maps highlight-group names to ids (`name_to_id`) and ids to
  attributes (`id_to_attr`). It also keeps one default-colours record
  (`default_colors`).

Files:

- `bits.dfy` (module `Bits`) holds the C++ integer types as bounded
  integers. It defines `&` on non-negative integers bit by bit (`And`),
  `>>` as a shift one bit at a time whose contract is division by a power
  of two (`Shr`), and the implicit narrowing to
  `uint8` as "keep the low eight bits" (`ToUint8`). Its lemmas prove by
  induction what a contiguous mask does: a block of `w` one-bits at bit `k`
  keeps the `w`-bit field of `x` that starts at bit `k`.
- `colors.dfy` (module `Colors`) holds `Color`, `FromPacked` (the
  `Color(uint32)` constructor, transcribed operator by operator) and
  `Pack`, its inverse on the low 24 bits. The contract of `FromPacked`
  says each channel is one base-256 digit of the input. Its lemmas prove
  three more things. The narrowing into `uint8` loses nothing. Unpacking and packing are inverse to each other.
  Bits above bit 23 are ignored.
- `hlstate.dfy` (module `Highlight`) holds `Kind`, `AttrState`, `HLAttr` and
  the class `HLState`. The class has the three fields of the C++ class: two
  `map` fields and one `HLAttr` field. Its setters are `modifies this`
  methods whose postconditions give the whole new state. The `const`
  accessors are functions that only `reads this`, so they change nothing.
  A client method at the end of the file derives the documented uses from
  the contracts. A second `SetNameId` on the same name overwrites the
  first binding. Storing an attribute leaves the names and the default
  colours unchanged.

Where the header's comments and its code disagree, the model follows the
code. The doc-comment of `id_for_name` says it returns the name of the
group for an id. Its signature takes a name and returns an `int` id, and
`IdForName` models the signature.

## Model

| member | source | states |
|---|---|---|
| Bits.And | src/hlstate.hpp:29-31 | bitwise AND of non-negative integers never exceeds either operand |
| Bits.Shr | src/hlstate.hpp:29-30 | the unsigned right shift `x >> k`, applied one bit at a time, is `x / 2^k` |
| Bits.ToUint8 | src/hlstate.hpp:24-26 | narrowing into a `uint8` member keeps any value below 256 unchanged |
| Bits.AndLowMask | src/hlstate.hpp:31 | AND with a mask of `w` low one-bits is `x mod 2^w` |
| Bits.AndBlockMask | src/hlstate.hpp:29-30 | AND with `w` one-bits starting at bit `k` is `(x / 2^k mod 2^w) * 2^k`: the field stays in place and every other bit is cleared |
| Bits.ShrAndBlock | src/hlstate.hpp:29-30 | masking with such a block and shifting right by `k` yields `x / 2^k mod 2^w` |
| Colors.MasksSelectBytes | src/hlstate.hpp:29-31 | `(clr & 0x00ff0000) >> 16` is `clr / 65536 mod 256`; `(clr & 0x0000ff00) >> 8` is `clr / 256 mod 256`; `clr & 0x000000ff` is `clr mod 256` |
| Colors.NarrowingIsLossless | src/hlstate.hpp:24-31 | each masked-and-shifted value already lies in 0..255, so storing it in a `uint8` channel loses nothing |
| Colors.FromPacked | src/hlstate.hpp:28-31 | `Color(uint32 clr)`: red is bits 16..23 of `clr`, green bits 8..15 and blue bits 0..7, as numbers (`clr / 65536 mod 256`, `clr / 256 mod 256`, `clr mod 256`) |
| Colors.Pack | src/hlstate.hpp:22-31 | the packed `0xRRGGBB` form of a colour fits in 24 bits |
| Colors.UnpackPack | src/hlstate.hpp:28-31 | unpacking the packed form of any colour gives that colour back |
| Colors.PackUnpack | src/hlstate.hpp:28-31 | `r * 65536 + g * 256 + b == clr mod 2^24` for every 32-bit `clr` |
| Colors.HighByteIgnored | src/hlstate.hpp:29 | `Color(clr) == Color(clr & 0xFFFFFF)` for every 32-bit `clr` |
| Highlight.HLState.constructor | src/hlstate.hpp:72 | a new table has empty name-to-id and id-to-attribute maps |
| Highlight.HLState.SetNameId | src/hlstate.hpp:73-77 | binds the name to the id, overwriting any earlier binding; `IdForName(name)` then returns the id when it fits in an `int`; other names, the attributes and the default colours are unchanged |
| Highlight.HLState.SetIdAttr | src/hlstate.hpp:78-81 | stores the attribute under the id, replacing any earlier record whole; `AttrForId(id)` then returns it; other ids, the name bindings and the default colours are unchanged |
| Highlight.HLState.AttrForId | src/hlstate.hpp:82-85 | returns the attribute stored for a present id |
| Highlight.HLState.IdForName | src/hlstate.hpp:86-89 | returns the id bound to a present name whenever it fits in an `int` |
| Highlight.HLState.DefaultColorsGet | src/hlstate.hpp:104-107 | returns the current default-colours record |

## Left out

- `define`, `default_colors_set`, `group_set` and `hl::hl_attr_from_object` are left out. They decode `msgpack::object` payloads, a foreign library type, and their bodies are not in the header.
- `opacity` is left out of `HLAttr`. It is a `float`, and nothing in the header computes with it. Its initial value is 1.
- The constructors of `HLAttr` are left out: `HLAttr()`, `HLAttr(int)`, the copy and move constructors, and the move assignment. Their bodies are not in the header.
- The copy assignment `operator=(const HLAttr&) = default` copies member by member. Dafny datatype values are copied the same way, so it needs no member of its own.
- `Color() = default` is left out. It leaves the channels indeterminate.
- Highlight.HLState.constructor: promises nothing about `defaultColors`. The model sets it to an all-zero record because the body of `HLAttr()` is not in the header.
- Highlight.HLState.AttrForId: requires the id to be present. What `attr_for_id` does for a missing id is not in the header.
- Highlight.HLState.IdForName: requires the name to be present. It promises nothing for stored ids of 2^31 and above, because the `uint32`-to-`int` conversion happens in a body that is not in the header.
- Highlight.HLState.AttrForId: returns a value. The C++ accessor returns a `const` reference into the map, and aliasing of that reference is not modelled.
- Highlight.HLState.DefaultColorsGet: returns a value. The C++ accessor returns a `const` reference, and aliasing of that reference is not modelled.
- Concurrency between the thread that applies events and the readers is not modelled. The header has no synchronisation. `<iostream>` is not used by any modelled code.
