# Cyclos concentrated-liquidity core: tick bitmap and pool-owner instructions

This project is a Dafny model of two parts of the Cyclos protocol, a Solana
port of a Uniswap-v3-style concentrated-liquidity exchange.

* **The tick bitmap** (`tick_bitmap.dfy`, module `TickBitmap`):
  * The codec that turns `tick / tick_spacing` into a record key (`word_pos`)
    and a bit position.
  * The `TickBitmapState` account. It stores 256 "initialized" flags as two
    `u128` words.
  * `flip_tick`, which toggles one flag.
  * `next_initialized_tick_within_one_word`, which scans one record for the
    next set flag.
* **The implemented program instructions** (`protocol.dfy`, module
  `CyclosProtocol`):
  * `initialize`, `enable_fee_amount` and `set_owner` on the factory and
    fee-tier accounts.
  * `set_fee_protocol` and `collect_protocol` on a pool account.
* **The Rust integer semantics both parts rely on** (`primitives.dfy`, module
  `Primitives`):
  * fixed-width integer newtypes;
  * truncating `/` and `%`;
  * bitwise exclusive or on integers, with its bit-level lemmas;
  * panics;
  * public keys.

Account types are Dafny classes whose fields the methods update in place.
Events are returned as values. A failing Solana instruction has all of its
account writes discarded by the runtime. So every error path, program error
or panic, leaves the accounts as they were.

The model follows the code as written, operator precedence and range
direction included. Where the code and the documented design disagree, the
model follows the code:

* **The codec.** Rust parses `(tick_div_spacing >> 8) % 2 ^ 15` as
  `((tick_div_spacing >> 8) % 2) ^ 15`, and the bit position the same way.
  * The intended layout is "word key = bits above bit 7, bit position = low 8
    bits, `word * 256 + bit` reconstructs the input".
  * The code as written returns a bit position of 8 or 9 and one of four word
    keys. Distinct inputs collide, and the pair never reconstructs the input.
* **The leftward search.** It is meant to scan downward from the start
  position. The code's `current_bit_pos..=0` is an ascending range, which is
  empty unless the start is 0.
* **The rightward search.** It is meant to stop at position 255. The code
  stops below `bitmap.len() as u8`: `Bitmap::len` is the number of set flags,
  truncated to `u8`. Its fallback `len - 1` underflows when that number is 0.
* **The protocol-fee check.** It is documented as a limit. The code only logs
  a message, it logs on the valid branch, and it never rejects.

## Model

| member | source | states |
|---|---|---|
| Primitives.XorBitsBit | programs/core/src/states/tick_bitmap.rs:72 | Each bit of a `^` within the width is the exclusive or of the operands' bits. |
| Primitives.XorBitsTwice | programs/core/src/states/tick_bitmap.rs:72 | Applying the same `^` twice restores a value of that width. |
| Primitives.ExactDivision | programs/core/src/states/tick_bitmap.rs:32-33 | Rust's truncating `%` is zero exactly when the Euclidean one is; then Rust's `/` is the exact quotient. |
| TickBitmap.GetTickDivSpacing | programs/core/src/states/tick_bitmap.rs:31-34 | Succeeds exactly when the spacing is nonzero, the division does not overflow and the tick is a multiple of the spacing. On success the result times the spacing is the tick. A zero spacing is a division panic; a nonzero remainder fails the `assert_eq!`. |
| TickBitmap.GetWordAndBitPos | programs/core/src/states/tick_bitmap.rs:41-57 | Succeeds exactly inside [-429772, 429772]; outside, the `assert!` fails. Bit position is `8 + parity`. Word key is `15 - parity of (tds >> 8)`, or `-15`/`16` for negative input. |
| TickBitmap.WordAndBitPosImage | programs/core/src/states/tick_bitmap.rs:36-57 | Every accepted value maps to bit 8 or 9. Word keys are 14 or 15 for non-negative input and -15 or 16 for negative input. |
| TickBitmap.CodecCollision | programs/core/src/states/tick_bitmap.rs:36-57 | Tick-div-spacing values 0 and 2 both map to word 15, bit 8. |
| TickBitmap.CodecCollidesWithinWindow | programs/core/src/states/tick_bitmap.rs:41-57 | Inside one 256-wide window, each non-negative value has the same (word, bit) pair as the value two above it. |
| TickBitmap.CodecNeverReconstructs | programs/core/src/states/tick_bitmap.rs:36-57 | For every accepted value, `word_pos * 256 + bit_pos` differs from the input, contrary to the layout in the doc comment. |
| TickBitmap.FromValue | programs/core/src/states/tick_bitmap.rs:60-62 | The two words decode to exactly 256 flags. |
| TickBitmap.TickBitmapState.DecodeBitmap | programs/core/src/states/tick_bitmap.rs:60-62 | The record decodes to 256 flags: flags 0-127 are the bits of word 0, flags 128-255 the bits of word 1. |
| TickBitmap.TickBitmapState.Default | programs/core/src/states/tick_bitmap.rs:18-27 | `default()` zeroes every field, so every decoded flag is clear. |
| TickBitmap.ZeroWordsAllClear | programs/core/src/states/tick_bitmap.rs:18-27 | The all-zero words `[0, 0]` decode to 256 clear flags. |
| TickBitmap.FlipToggles | programs/core/src/states/tick_bitmap.rs:64-73 | Flipping position `b` negates flag `b` of the decoded bitmap and leaves the other 255 flags unchanged. |
| TickBitmap.FlipInvolution | programs/core/src/states/tick_bitmap.rs:64-73 | Flipping the same position twice restores the stored words. |
| TickBitmap.FlipScenarios | programs/core/src/states/tick_bitmap.rs:129-165 | From `[0, 0]`, flipping 0, 127, 128 or 255 gives `[1, 0]`, `[2^127, 0]`, `[0, 1]` or `[0, 2^127]`. Flipping again gives `[0, 0]`. |
| TickBitmap.TickBitmapState.FlipTick | programs/core/src/states/tick_bitmap.rs:65-73 | The stored words become the word-wise `^` with the one-bit mask. The decoded flags change in position `bitPos` only. The identifying fields stay as they were. |
| TickBitmap.PopCount | programs/core/src/states/tick_bitmap.rs:100 | `Bitmap::len` is at most 256. It is 0 exactly when no flag is set, and equals the length exactly when every flag is set. |
| TickBitmap.PopCountToggle | programs/core/src/states/tick_bitmap.rs:65-73 | Toggling one flag moves the count by exactly one, down when the flag was set and up otherwise. |
| TickBitmap.FirstSetIn | programs/core/src/states/tick_bitmap.rs:92-97 | A found position lies in the scanned half-open range, is set, and no earlier position of the range is set. No result means the whole range is clear. |
| TickBitmap.SearchWithinWord | programs/core/src/states/tick_bitmap.rs:83-108 | Leftward: the result is always position 0, initialized only if the start is 0 and flag 0 is set. Rightward: start 255 panics. A hit is the first set flag strictly between the start and `len as u8`, and one exists exactly when such a flag is set. Otherwise the result is `(len - 1, false)`, or a panic when `len as u8` is 0. |
| TickBitmap.TickBitmapState.NextInitializedTickWithinOneWord | programs/core/src/states/tick_bitmap.rs:83-108 | The two loops with early return compute exactly `SearchWithinWord` of the decoded record. |
| TickBitmap.LeftSearchMissesSetFlag | programs/core/src/states/tick_bitmap.rs:90-98 | From any set position other than 0, the leftward search reports `(0, false)`. |
| TickBitmap.RightSearchOnEmptyRecordPanics | programs/core/src/states/tick_bitmap.rs:99-107 | On an all-clear record every rightward search panics. |
| TickBitmap.RightSearchOnFullRecordPanics | programs/core/src/states/tick_bitmap.rs:99-107 | On a full record, `len as u8` is 0 and every rightward search panics. |
| TickBitmap.RightSearchNeverFindsLoneTick | programs/core/src/states/tick_bitmap.rs:99-107 | With exactly one flag set and a start below 255, the rightward search reports `(0, false)` wherever the flag is. |
| TickBitmap.FreshRecordFlipNotFound | programs/core/src/states/tick_bitmap.rs:65-108 | After one flip on a fresh record, the flipped flag is set, but no rightward search finds it. |
| CyclosProtocol.Initialize | programs/cyclos-protocol-v2/src/lib.rs:25-35 | Stores the bump and the owner. The event's old owner is the system program address. |
| CyclosProtocol.EnableFeeAmount | programs/cyclos-protocol-v2/src/lib.rs:37-60 | A fee above 1_000_000 is `FeeLimit`, checked first. Then a tick spacing above 16384 is `TickSpacingLimit`. It succeeds exactly within both limits, storing the bump, fee and spacing. On error the account is unchanged. |
| CyclosProtocol.SetOwner | programs/cyclos-protocol-v2/src/lib.rs:62-71 | The new owner replaces the stored one and the bump is kept. The event carries the old and new owner. |
| CyclosProtocol.PackFeeProtocol | programs/cyclos-protocol-v2/src/lib.rs:275-276 | `(p1 << 4) + p0` on `u8` overflows exactly when the shifted `p1` plus `p0` exceeds 255. For 4-bit inputs, `% 16` and `>> 4` of the byte give back `p0` and `p1`. |
| CyclosProtocol.PackDropsHighBits | programs/cyclos-protocol-v2/src/lib.rs:276 | `fee_protocol_1 = 16` stores the same byte as `fee_protocol_1 = 0`. |
| CyclosProtocol.SetFeeProtocol | programs/cyclos-protocol-v2/src/lib.rs:258-288 | A locked pool gives `Locked`; an overflowing pack panics. Both leave the pool unchanged. On success it stores the packed byte and unlocks the pool. The event has the old byte's `% 16` and `>> 4`. The message is logged exactly when both fees are 0 or in 4..=10. Nothing else changes. |
| CyclosProtocol.CollectedAmount | programs/cyclos-protocol-v2/src/lib.rs:303-366 | The amount is at most the request and at most the accrued fees. It is the request when the request is below the accrued fees, and accrued - 1 otherwise (0 when nothing accrued). A positive balance stays positive. |
| CyclosProtocol.LastUnitStays | programs/cyclos-protocol-v2/src/lib.rs:327-334 | With one unit accrued, collecting pays nothing, whatever the request. |
| CyclosProtocol.RepeatedCollection | programs/cyclos-protocol-v2/src/lib.rs:327-366 | Two collections in a row pay out less in total than the balance had. |
| CyclosProtocol.CollectProtocol | programs/cyclos-protocol-v2/src/lib.rs:292-390 | A locked pool gives `Locked` and nothing changes. Otherwise each token's payout is `CollectedAmount` of its request and balance, and that balance drops by exactly the payout. The pool is unlocked again and no other field changes. |

## Left out

- Anchor account contexts, PDA seeds and signer checks: the model takes the accounts as objects. It does not model who may call an instruction or how the account addresses are derived.
- Token transfers in `collect_protocol` (the `token::transfer` CPIs, lib.rs:341-352 and 368-380): a failing transfer would revert the instruction. The model assumes transfers succeed and returns the amounts in the event.
- `emit!` and `msg!`: events are returned as values, without their `pool_state` key. The log message of `set_fee_protocol` is a boolean in the result.
- `create_pool` (lib.rs:82-162): it computes the starting tick from an `f64` square-root price, and floating point is not modelled.
- `mint`, `collect`, `burn`, `swap`, `flash`, `update_position` and `modify_position` (lib.rs:174-249, 400-419) are `todo!()` stubs with no behaviour. They are not part of this model.
- The `bitmaps` crate is not part of this model:
  - `Bitmap<256>` is modelled by its observable behaviour. `from_value` is the 256 bits of the two words, low word first. `len` is the number of set flags. `get` is indexing. `bitxor` is word-wise exclusive or.
  - The unit test `bitmap_test` only prints and is not modelled.
- Public keys are opaque values; their bytes are never inspected.
- SetFeeProtocol: the model treats the `+` in `(fee_protocol_1 << 4) + fee_protocol_0` as checked (a panic on `u8` overflow), as in a build with overflow checks. A build without them would wrap instead. The `<< 4` never panics and drops the high bits in either build.
- TickBitmap.FromValue: the model does not prove that the decoding is injective. The flip lemmas are stated both on the words and on the decoded flags instead.
