# CCCD persistence and standard descriptors of a BLE GATT server

A model of `src/gatt_server/custom_attributes.rs` in the `bluedroid` crate. That file has two descriptor factories. `Descriptor::user_description(text)` builds the Characteristic User Description descriptor (UUID 0x2901). `Descriptor::cccd()` builds the Client Characteristic Configuration Descriptor (UUID 0x2902). Both descriptors are defined in the Bluetooth Core Specification, Volume 3, Part G, sections 3.3.3.2 and 3.3.3.3. The CCCD's read and write callbacks keep each peer's subscription bytes in the non-volatile store, under a key made from the peer's 6-byte device address.

Files and modules:

- `bytes.dfy`, module `Bytes`: `byte` (Rust `u8`), `Address` (`bda: [u8; 6]`) and `Option`.
- `peer_key.dfy`, module `PeerKey`: the key `format!("{:02X}:…")` builds (`FormatKey`). It comes with a parser (`ParseKey`) that is its exact inverse. From the two round trips follow the key's shape and that key derivation is injective.
- `utf8.dfy`, module `Utf8`: the bytes `str::as_bytes` yields. A Dafny `char` is a Unicode scalar value, so the model encodes a `string` to UTF-8 (`Encode`). The decoder `Decode` is proved to invert it in both directions.
- `cccd.dfy`, module `Cccd`: the policy as functions over the store's contents. `Read` returns the stored record or `[0, 0]`. `Write` puts the payload verbatim under the peer's key. These come with lemmas for the default, the round trip, isolation between peers and overwriting. `Run` and `LastWrite` model a serialised sequence of accesses, for the lemma `RunRead`. The class `CccdStorage` is the shared storage handle: a `records` map field, plus `OnRead` and `OnWrite` methods proved against `Read` and `Write`.
- `descriptor.dfy`, module `Descriptors`: the `Descriptor` record has a name, a 16-bit UUID, a permission set over {Readable, Writable}, value bytes, and a behaviour tag (`StaticValue` or `CccdPersisted`). It has the two factories. `Served` gives what a read of a descriptor returns, and `AfterWrite` gives what a write does to the store.

## Model

| member | source | states |
|---|---|---|
| PeerKey.HexByte | src/gatt_server/custom_attributes.rs:41 | `{:02X}` of a byte is exactly two upper-case hexadecimal digits, whose values are the byte's high and low nibble |
| PeerKey.FormatKey | src/gatt_server/custom_attributes.rs:40-43 | the key is 17 characters with `:` at positions 2, 5, 8, 11 and 14 |
| PeerKey.FormatKeyGroups | src/gatt_server/custom_attributes.rs:41-42 | the six two-character groups between the separators are `{:02X}` of the six address bytes, in order |
| PeerKey.FormatKeyGroup | src/gatt_server/custom_attributes.rs:41-42 | characters 3j and 3j+1 of the key are `{:02X}` of address byte j |
| PeerKey.FormatKeyShape | src/gatt_server/custom_attributes.rs:40-43 | a key character is `:` exactly at positions 2, 5, 8, 11 and 14; every other character is an upper-case hex digit |
| PeerKey.ParseKey | src/gatt_server/custom_attributes.rs:40-43 | the reference reader of the key format accepts only 17-character strings |
| PeerKey.ParseFormatKey | src/gatt_server/custom_attributes.rs:40-43 | parsing the key of an address gives that address back, so the key loses nothing |
| PeerKey.FormatParseKey | src/gatt_server/custom_attributes.rs:40-43 | every string of the key shape is the key of exactly the address it parses to, so the format is canonical |
| PeerKey.FormatKeyInjective | src/gatt_server/custom_attributes.rs:57-60 | two addresses give the same key if and only if they are equal |
| Utf8.EncodeChar | src/gatt_server/custom_attributes.rs:26 | one character becomes 1 to 4 bytes; it is 1 byte exactly for ASCII; every byte after the first is a continuation byte |
| Utf8.DecodeEncode | src/gatt_server/custom_attributes.rs:26 | decoding the UTF-8 bytes of any text gives the text back |
| Utf8.EncodeDecode | src/gatt_server/custom_attributes.rs:26 | every well-formed byte sequence is the encoding of the text it decodes to |
| Utf8.EncodeInjective | src/gatt_server/custom_attributes.rs:26 | two texts have the same bytes if and only if they are equal |
| Utf8.EncodeAscii | src/gatt_server/custom_attributes.rs:26 | ASCII text is carried one byte per character, each byte the character's code |
| Cccd.ReadUnseen | src/gatt_server/custom_attributes.rs:49-51 | a peer with no record reads `[0, 0]`, which is 2 bytes long |
| Cccd.WriteThenRead | src/gatt_server/custom_attributes.rs:46-63 | after a write of a 2-byte value for a peer, a read for that peer returns that value |
| Cccd.WriteVerbatim | src/gatt_server/custom_attributes.rs:63 | a write stores the payload unchanged, whatever its length, under the peer's key, and adds no other key |
| Cccd.WriteIsolation | src/gatt_server/custom_attributes.rs:57-63 | a write for peer a leaves the read of every peer b ≠ a as it was |
| Cccd.WriteOverwrites | src/gatt_server/custom_attributes.rs:63 | a second write for the same peer replaces the first entirely |
| Cccd.WritesCommute | src/gatt_server/custom_attributes.rs:53-63 | writes for two different peers give the same store in either order |
| Cccd.RunRead | src/gatt_server/custom_attributes.rs:49-63 | with the model's whole-record read, after any serialised sequence of reads and writes a peer reads its last written payload, or its earlier value if it wrote nothing; other peers' accesses and all reads do not affect it |
| Cccd.LastWriteSized | src/gatt_server/custom_attributes.rs:46-63 | in a trace whose writes all carry 2 bytes, a peer's last written payload is 2 bytes |
| Cccd.RunRead2Byte | src/gatt_server/custom_attributes.rs:36-64 | when every write carries 2 bytes, as the 2-byte buffer `buf` expects, a peer reads back its last written 2-byte payload, or its earlier value if it wrote nothing, and a peer that started with a 2-byte value still has one |
| Cccd.ReadsKeepStore | src/gatt_server/custom_attributes.rs:36-52 | any sequence of reads alone leaves the store unchanged |
| Cccd.RepliesLength | src/gatt_server/custom_attributes.rs:36-64 | a trace gets exactly one answer per access |
| Cccd.RepliesAt | src/gatt_server/custom_attributes.rs:36-64 | with the model's whole-record read, in any serialised trace the answer to access i is the reply given by the store as the accesses before i left it: `Some` of the read for a read, `None` for a write |
| Cccd.CccdStorage.constructor | src/gatt_server/custom_attributes.rs:14-16 | the handle opens with the records persisted from earlier sessions |
| Cccd.CccdStorage.OnRead | src/gatt_server/custom_attributes.rs:36-52 | the read callback returns `Read` of the current records: the stored record, or `[0, 0]` if there is none; it has no `modifies` clause, so the store is unchanged |
| Cccd.CccdStorage.OnWrite | src/gatt_server/custom_attributes.rs:53-64 | the write callback's new records are the old ones with the payload put under the peer's key, and nothing else changed |
| Cccd.CccdStorage.Serve | src/gatt_server/custom_attributes.rs:36-64 | one access goes to the callback for its kind: a read answers `Some` of `Read` and keeps the records; a write answers `None` and applies `Write` |
| Cccd.CccdStorage.Replay | src/gatt_server/custom_attributes.rs:36-64 | delivering a trace to the callbacks in order leaves the records at `Run` of the trace and answers `Replies` of the trace, so `RunRead`, `RunRead2Byte` and `RepliesAt` describe the object |
| Cccd.ExampleSession | src/gatt_server/custom_attributes.rs:30-66 | `DE:AD:BE:EF:00:01` writes `[0x01, 0x00]` and reads it back; the never-seen `11:22:33:44:55:66` reads `[0x00, 0x00]` |
| Descriptors.UserDescription | src/gatt_server/custom_attributes.rs:20-28 | the descriptor is named "User Description"; it has UUID 0x2901, is readable but not writable, and has a static value that decodes to exactly the given text |
| Descriptors.Cccd | src/gatt_server/custom_attributes.rs:30-35 | the descriptor is named "Client Characteristic Configuration"; it has UUID 0x2902, permissions {Readable, Writable}, and is served by the persisted policy |
| Descriptors.UserDescriptionServesText | src/gatt_server/custom_attributes.rs:20-28 | every peer reads the encoded text, whatever the store holds, and no write of any payload to a user description changes the store |
| Descriptors.UserDescriptionInjective | src/gatt_server/custom_attributes.rs:26 | two user descriptions serve the same bytes if and only if their texts are equal |
| Descriptors.UserDescriptionAscii | src/gatt_server/custom_attributes.rs:26 | for ASCII text the value has one byte per character, each the character's code |
| Descriptors.BatteryLevelDescription | src/gatt_server/custom_attributes.rs:20-28 | `user_description("Battery Level")` holds the 13 ASCII bytes of that text |
| Descriptors.CccdUsesStore | src/gatt_server/custom_attributes.rs:36-64 | the CCCD serves `Read` of the store, never its static value; a write goes to `Write`; a 2-byte write reads back |

`Cccd.Read`, `Cccd.Write`, `Cccd.Step`, `Cccd.Run`, `Cccd.LastWrite`, `Cccd.Reply`, `Cccd.Replies`, `Cccd.CccdSized`, `Utf8.Encode`, `Utf8.Decode`, `Descriptors.Served` and `Descriptors.AfterWrite` are specification functions. `Descriptors.ReadOnly` and `Descriptors.ReadWrite` stand for `AttributePermissions::read()` and `read_write()` (lines 24 and 34); they give {Readable} and {Readable, Writable}. What they mean is stated by the lemmas above. Both `OnRead` and `OnWrite` derive the key with the same `FormatKey`, because lines 40-43 and 57-60 hold the same format expression.

## Left out

- The `lazy_static` global `STORAGE`, its `Mutex` and its one-time opening of the `"ble"` NVS namespace (lines 13-17). The store is an explicit `CccdStorage` object. Each `OnRead` or `OnWrite` call is one critical section, and `Run` models the serialised order the lock produces.
- The `.unwrap()` panics when locking, opening, `get_raw` or `put_raw` fail (lines 15, 37, 47, 54, 63). Storage operations always succeed in the model.
- Cccd.CccdStorage.OnRead: `get_raw` is treated as handing back the whole stored record. The driver code is not part of this model, and neither is the 2-byte buffer `buf`. The driver's behaviour for a stored record longer than that buffer (an error, or a shortened reply) is not captured. For this reason `Cccd.WriteThenRead` is stated only for 2-byte values.
- Cccd.RunRead, Cccd.RepliesAt, Cccd.CccdStorage.Serve, Cccd.CccdStorage.Replay: these use the same whole-record read as `OnRead`. They match the source only when every write in the trace carries 2 bytes; `Cccd.RunRead2Byte` states that case.
- Key-name limits of the underlying NVS engine are not modelled; the model accepts any key. ESP-IDF documents a 15-character limit on NVS key names, and the key here has 17. If the driver enforces that limit on this path, `put_raw` at line 63 would fail and its `.unwrap()` would panic on every CCCD write. The driver code is not part of this model, so this is not confirmed here.
- `EspNvsStorage` / `EspDefaultNvs` internals and flash I/O. The store is a `map` from key to bytes.
- The internals of the `Descriptor` builder (`new`, `set_value`, `on_read`, `on_write`, `to_owned`), `BleUuid` and `AttributePermissions`. These are not part of this model, so they are record fields and a behaviour tag. `Descriptors.Cccd` gives the CCCD an empty static value, because lines 30-35 set none and `Descriptor::new`'s initial value is not visible. `CccdUsesStore` shows that this value is never served.
- How the BLE stack dispatches callbacks, and the rest of the connection parameter beyond `bda`.
- 128-bit UUIDs: only the 16-bit form is used here.
