/**
 * The two standard GATT descriptors the server builds: the Characteristic
 * User Description (UUID 0x2901) and the Client Characteristic Configuration
 * Descriptor (UUID 0x2902), defined in the Bluetooth Core Specification,
 * Volume 3, Part G, sections 3.3.3.2 and 3.3.3.3.
 */
module Descriptors {
  import opened Bytes
  import Utf8
  import Persist = Cccd

  datatype Permission = Readable | Writable

  type uint16 = x: int | 0 <= x < 0x10000

  /** Only the 16-bit form of a Bluetooth UUID is needed here. */
  datatype BleUuid = Uuid16(short: uint16)

  /** Which policy answers reads and writes of a descriptor. */
  datatype Behaviour =
    | StaticValue    // the `value` field is served as it is; no callbacks
    | CccdPersisted  // the per-peer callbacks over the shared store

  datatype Descriptor = Descriptor(
    name: string,
    uuid: BleUuid,
    permissions: set<Permission>,
    value: seq<byte>,
    behaviour: Behaviour)

  /** `AttributePermissions::read()`. */
  function ReadOnly(): set<Permission> { {Readable} }

  /** `AttributePermissions::read_write()`. */
  function ReadWrite(): set<Permission> { {Readable, Writable} }

  /** A read-only descriptor whose value is the UTF-8 bytes of `text`. */
  function UserDescription(text: string): (d: Descriptor)
    ensures d.name == "User Description" && d.uuid == Uuid16(0x2901)
    ensures Readable in d.permissions && Writable !in d.permissions
    ensures d.behaviour == StaticValue
    ensures Utf8.Decode(d.value) == Some(text)
  {
    Utf8.DecodeEncode(text);
    Descriptor("User Description", Uuid16(0x2901), ReadOnly(), Utf8.Encode(text), StaticValue)
  }

  /** The readable and writable CCCD whose value lives in the per-peer store. */
  function Cccd(): (d: Descriptor)
    ensures d.name == "Client Characteristic Configuration" && d.uuid == Uuid16(0x2902)
    ensures d.permissions == {Readable, Writable}
    ensures d.behaviour == CccdPersisted
  {
    Descriptor("Client Characteristic Configuration", Uuid16(0x2902), ReadWrite(), [], CccdPersisted)
  }

  /** What a read of descriptor `d` by peer `bda` returns when the store holds `store`. */
  function Served(d: Descriptor, store: Persist.Store, bda: Address): seq<byte>
  {
    match d.behaviour
    case StaticValue => d.value
    case CccdPersisted => Persist.Read(store, bda)
  }

  /** The store after peer `bda` writes `payload` to descriptor `d`; only the CCCD callbacks touch it. */
  function AfterWrite(d: Descriptor, store: Persist.Store, bda: Address, payload: seq<byte>): Persist.Store
  {
    match d.behaviour
    case StaticValue => store
    case CccdPersisted => Persist.Write(store, bda, payload)
  }

  /** A user description serves the encoded text to every peer, whatever the store holds. */
  lemma UserDescriptionServesText(text: string, store: Persist.Store, bda: Address, payload: seq<byte>)
    ensures Utf8.Decode(Served(UserDescription(text), store, bda)) == Some(text)
    ensures AfterWrite(UserDescription(text), store, bda, payload) == store
  {
  }

  /** Two user descriptions serve the same bytes only if their texts are equal. */
  lemma UserDescriptionInjective(s: string, t: string, store: Persist.Store, bda: Address)
    ensures Served(UserDescription(s), store, bda) == Served(UserDescription(t), store, bda) <==> s == t
  {
    Utf8.EncodeInjective(s, t);
  }

  /** For ASCII text the value is the text's character codes, one byte each. */
  lemma UserDescriptionAscii(text: string)
    requires forall i :: 0 <= i < |text| ==> (text[i] as int) < 0x80
    ensures |UserDescription(text).value| == |text|
    ensures forall i :: 0 <= i < |text| ==> UserDescription(text).value[i] == text[i] as int
  {
    Utf8.EncodeAscii(text);
  }

  /**
   * The descriptor for "Battery Level" holds the thirteen ASCII bytes of that
   * text. The text is a parameter so that the proof goes through the ASCII
   * lemma instead of unfolding the encoder on a literal.
   */
  lemma BatteryLevelDescription(text: string)
    requires text == "Battery Level"
    ensures UserDescription(text).value ==
      [0x42, 0x61, 0x74, 0x74, 0x65, 0x72, 0x79, 0x20, 0x4C, 0x65, 0x76, 0x65, 0x6C]
  {
    UserDescriptionAscii(text);
  }

  /** The CCCD's static value is never served: reads and writes go to the per-peer store. */
  lemma CccdUsesStore(store: Persist.Store, bda: Address, payload: seq<byte>)
    ensures Served(Cccd(), store, bda) == Persist.Read(store, bda)
    ensures |payload| == Persist.BufferLen ==> Served(Cccd(), Persist.Write(store, bda, payload), bda) == payload
    ensures AfterWrite(Cccd(), store, bda, payload) == Persist.Write(store, bda, payload)
  {
  }
}
