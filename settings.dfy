/**
 * src/settings.rs: the persisted "discard received files" flag. The flag is
 * stored in the registry as a 4-byte DWORD, `(flag as u32).to_ne_bytes()`, and
 * read back as `u32::from_ne_bytes(data) != 0`, with `false` whenever the key
 * or the value cannot be read. The Win32 registry calls are abstracted: the
 * application's key is either absent or present, and holds the value's raw
 * bytes or not.
 */
module Settings {
  import opened Common

  datatype Endian = Little | Big

  /** Windows runs little-endian on every architecture it supports. */
  const NativeEndian: Endian := Little

  const DwordLimit: nat := 0x1_0000_0000

  /** `u32::to_ne_bytes`. */
  function ToNeBytes(v: nat, e: Endian): (b: seq<u8>)
    requires v < DwordLimit
    ensures |b| == 4
  {
    var q1, q2, q3 := v / 0x100, v / 0x100 / 0x100, v / 0x100 / 0x100 / 0x100;
    var le := [(v % 0x100) as u8, (q1 % 0x100) as u8, (q2 % 0x100) as u8, q3 as u8];
    if e == Little then le else [le[3], le[2], le[1], le[0]]
  }

  /** `u32::from_ne_bytes`. */
  function FromNeBytes(b: seq<u8>, e: Endian): (v: nat)
    requires |b| == 4
    ensures v < DwordLimit
  {
    var le := if e == Little then b else [b[3], b[2], b[1], b[0]];
    le[0] as nat + 0x100 * le[1] as nat + 0x1_0000 * le[2] as nat + 0x100_0000 * le[3] as nat
  }

  /** Decoding the bytes of a value gives the value back, in either byte order. */
  lemma NeBytesRoundTrip(v: nat, e: Endian)
    requires v < DwordLimit
    ensures FromNeBytes(ToNeBytes(v, e), e) == v
  {
    var q1, q2, q3 := v / 0x100, v / 0x100 / 0x100, v / 0x100 / 0x100 / 0x100;
    assert v == v % 0x100 + 0x100 * q1;
    assert q1 == q1 % 0x100 + 0x100 * q2;
    assert q2 == q2 % 0x100 + 0x100 * q3;
  }

  /** The DWORD that `store` writes for a flag. */
  function EncodeFlag(flag: bool): (data: seq<u8>)
    ensures |data| == 4
    ensures FromNeBytes(data, NativeEndian) == if flag then 1 else 0
  {
    NeBytesRoundTrip(if flag then 1 else 0, NativeEndian);
    ToNeBytes(if flag then 1 else 0, NativeEndian)
  }

  /**
   * The flag that `load` reads from a DWORD: non-zero means true. Whether a
   * u32 is zero does not depend on the byte order it is read in: it is true
   * exactly when some byte is non-zero.
   */
  function DecodeFlag(data: seq<u8>): (flag: bool)
    requires |data| == 4
    ensures flag <==> exists i :: 0 <= i < 4 && data[i] != 0
    ensures flag <==> FromNeBytes(data, Big) != 0
  {
    FromNeBytes(data, NativeEndian) != 0
  }

  /** Decoding what `store` encodes gives back the stored flag. */
  lemma FlagRoundTrip(flag: bool)
    ensures DecodeFlag(EncodeFlag(flag)) == flag
  {
  }

  /** The application's registry key, holding the raw bytes of the flag's value if it exists. */
  datatype RegKey = RegKey(value: Option<seq<u8>>)

  /**
   * What `RegQueryValueExW` leaves in the 4-byte buffer of `load`: it fails
   * when the value is missing or longer than the buffer, and otherwise copies
   * the value's bytes to the front of the zero-filled buffer.
   */
  function QueryDword(key: RegKey): (data: Option<seq<u8>>)
    ensures data.Some? <==> key.value.Some? && |key.value.value| <= 4
    ensures data.Some? ==> |data.value| == 4 && data.value[..|key.value.value|] == key.value.value
    ensures data.Some? ==> forall i :: |key.value.value| <= i < 4 ==> data.value[i] == 0
  {
    match key.value
    case None => None
    case Some(bytes) =>
      if |bytes| <= 4 then Some(bytes + seq(4 - |bytes|, _ => 0 as u8)) else None
  }

  /** The flag `load` ends up with, given the state of the registry key. */
  function LoadedFlag(key: Option<RegKey>): (flag: bool)
    ensures key.None? ==> !flag
    ensures key.Some? && QueryDword(key.value).None? ==> !flag
    ensures key.Some? && QueryDword(key.value).Some? ==> flag == DecodeFlag(QueryDword(key.value).value)
  {
    match key
    case None => false
    case Some(k) =>
      match QueryDword(k)
      case None => false
      case Some(data) => DecodeFlag(data)
  }

  /** A flag that `store` wrote is what the next `load` reads. */
  lemma StoreThenLoad(flag: bool, key: RegKey)
    requires key.value == Some(EncodeFlag(flag))
    ensures LoadedFlag(Some(key)) == flag
  {
    assert EncodeFlag(flag) + seq(0, _ => 0 as u8) == EncodeFlag(flag);
    FlagRoundTrip(flag);
  }

  /** The part of the registry the application uses. */
  class Registry {
    var key: Option<RegKey>

    constructor (key: Option<RegKey>)
      ensures this.key == key
    {
      this.key := key;
    }
  }

  /** `AppSettings`: the flag is an `AtomicBool` in the source, a plain field here. */
  class AppSettings {
    var discardFlag: bool

    constructor (discardFlag: bool)
      ensures this.discardFlag == discardFlag
    {
      this.discardFlag := discardFlag;
    }

    /** `AppSettings::load`: a missing key or an unreadable value leaves the default `false`. */
    static method Load(registry: Registry) returns (settings: AppSettings)
      ensures fresh(settings)
      ensures settings.discardFlag == LoadedFlag(registry.key)
    {
      var flag := false;
      if registry.key.Some? {
        // RegOpenKeyW succeeded
        var data := new u8[4](_ => 0);
        var value := registry.key.value.value;
        if value.Some? && |value.value| <= 4 {
          // RegQueryValueExW succeeded and filled the front of the buffer
          forall i | 0 <= i < |value.value| {
            data[i] := value.value[i];
          }
          assert data[..] == QueryDword(registry.key.value).value;
          flag := DecodeFlag(data[..]);
        }
      }
      settings := new AppSettings(flag);
    }

    /**
     * `AppSettings::store`. `keyCreated` is the outcome of `RegCreateKeyW`
     * (which opens the key when it already exists) and `valueWritten` that of
     * `RegSetKeyValueW`, whose failure is ignored. The in-memory flag is only read.
     */
    method Store(registry: Registry, keyCreated: bool, valueWritten: bool)
      modifies registry
      ensures registry.key ==
        if !keyCreated then old(registry.key)
        else if valueWritten then Some(RegKey(Some(EncodeFlag(discardFlag))))
        else if old(registry.key).Some? then old(registry.key)
        else Some(RegKey(None))
      ensures keyCreated && valueWritten ==> LoadedFlag(registry.key) == discardFlag
    {
      if keyCreated {
        if registry.key.None? {
          registry.key := Some(RegKey(None));
        }
        if valueWritten {
          var data := EncodeFlag(discardFlag);
          registry.key := Some(RegKey(Some(data)));
          StoreThenLoad(discardFlag, registry.key.value);
        }
      }
    }

    /** `AppSettings::set_discard_flag`. */
    method SetDiscardFlag(flag: bool)
      modifies this
      ensures discardFlag == flag
    {
      discardFlag := flag;
    }

    /** `AppSettings::discard_flag`. */
    method DiscardFlag() returns (flag: bool)
      ensures flag == discardFlag
    {
      flag := discardFlag;
    }
  }
}
