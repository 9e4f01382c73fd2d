/**
  The SQLite database header: the first 100 bytes of the file, laid out as
  described in section 1.3 ("The Database Header") of the SQLite Database
  File Format document. Every field is a big-endian unsigned integer at a
  fixed offset.
*/
module SQLiteHeader {
  import opened Wrappers

  type Byte = x: int | 0 <= x < 256

  const HeaderSizeBytes: nat := 100

  /** Names of the text encodings for raw values 1, 2 and 3. */
  const TextEncodings: seq<string> := ["UTF-8", "UTF-16le", "UTF-16be"]

  function Pow256(n: nat): (r: nat)
    ensures r > 0
  {
    if n == 0 then 1 else 256 * Pow256(n - 1)
  }

  lemma {:induction false} Pow256Monotone(m: nat, n: nat)
    requires m <= n
    ensures Pow256(m) <= Pow256(n)
  {
    if m < n {
      Pow256Monotone(m, n - 1);
    }
  }

  /** The value of `s` read as a big-endian unsigned integer (`int.from_bytes(s, 'big')`). */
  function BigEndian(s: seq<Byte>): (r: nat)
    ensures r < Pow256(|s|)
  {
    if s == [] then 0
    else
      var hi := BigEndian(s[..|s| - 1]);
      assert hi * 256 <= (Pow256(|s| - 1) - 1) * 256;
      hi * 256 + s[|s| - 1]
  }

  /** The big-endian encoding of `n` in `len` bytes (the inverse of BigEndian). */
  function ToBigEndian(n: nat, len: nat): (r: seq<Byte>)
    ensures |r| == len
  {
    if len == 0 then [] else ToBigEndian(n / 256, len - 1) + [n % 256]
  }

  lemma {:induction false} BigEndianRoundTrip(n: nat, len: nat)
    requires n < Pow256(len)
    ensures BigEndian(ToBigEndian(n, len)) == n
  {
    if len > 0 {
      var s := ToBigEndian(n, len);
      assert s[..len - 1] == ToBigEndian(n / 256, len - 1);
      BigEndianRoundTrip(n / 256, len - 1);
    }
  }

  lemma {:induction false} ToBigEndianRoundTrip(s: seq<Byte>)
    ensures ToBigEndian(BigEndian(s), |s|) == s
  {
    if s != [] {
      var pre, last := s[..|s| - 1], s[|s| - 1];
      var hi := BigEndian(pre);
      assert BigEndian(s) == hi * 256 + last;
      DivModByte(hi, last);
      ToBigEndianRoundTrip(pre);
      assert s == pre + [last];
    }
  }

  lemma DivModByte(hi: nat, lo: Byte)
    ensures (hi * 256 + lo as int) / 256 == hi && (hi * 256 + lo as int) % 256 == lo as int
  {
  }

  /** A big-endian value is zero exactly when every byte is zero. */
  lemma {:induction false} BigEndianZero(s: seq<Byte>)
    ensures BigEndian(s) == 0 <==> forall i :: 0 <= i < |s| ==> s[i] == 0
  {
    if s != [] {
      var pre := s[..|s| - 1];
      BigEndianZero(pre);
      assert forall i :: 0 <= i < |pre| ==> pre[i] == s[i];
    }
  }

  /** Python's `raw[a:b]` for `0 <= a`: both ends are clamped to the length of `raw`. */
  function Slice(raw: seq<Byte>, a: nat, b: nat): (r: seq<Byte>)
    ensures a <= b <= |raw| ==> r == raw[a..b]
    ensures a <= |raw| <= b ==> r == raw[a..]
    ensures |raw| <= a || b <= a ==> r == []
    ensures |r| <= b - a || a > b
  {
    var hi := if b <= |raw| then b else |raw|;
    var lo := if a <= hi then a else hi;
    raw[lo..hi]
  }

  /** `_read_int(start, length)`: the big-endian value of `length` bytes at `start`. */
  function ReadInt(raw: seq<Byte>, start: nat, length: nat): (r: nat)
    ensures r < Pow256(length)
    ensures start + length <= |raw| ==> r == BigEndian(raw[start..start + length])
    ensures start <= |raw| <= start + length ==> r == BigEndian(raw[start..])
    ensures |raw| <= start || length == 0 ==> r == 0
  {
    var field := Slice(raw, start, start + length);
    Pow256Monotone(|field|, length);
    BigEndian(field)
  }

  lemma ReadIntOneByte(raw: seq<Byte>, start: nat)
    requires start + 1 <= |raw|
    ensures ReadInt(raw, start, 1) == raw[start]
  {
    assert raw[start..start + 1][..0] == [];
  }

  lemma ReadIntTwoBytes(raw: seq<Byte>, start: nat)
    requires start + 2 <= |raw|
    ensures ReadInt(raw, start, 2) == raw[start] as int * 256 + raw[start + 1]
  {
    var f := raw[start..start + 2];
    assert f[..1] == [raw[start]] && f[..1][..0] == [];
    assert BigEndian(f[..1]) == raw[start];
    assert BigEndian(f) == BigEndian(f[..1]) * 256 + f[1];
  }

  lemma ReadIntFourBytes(raw: seq<Byte>, start: nat)
    requires start + 4 <= |raw|
    ensures ReadInt(raw, start, 4)
         == ((raw[start] as int * 256 + raw[start + 1]) * 256 + raw[start + 2]) * 256 + raw[start + 3]
  {
    var f := raw[start..start + 4];
    assert f[..3] == raw[start..start + 3];
    assert f[..3][..2] == raw[start..start + 2];
    ReadIntTwoBytes(raw, start);
    assert BigEndian(f[..3]) == BigEndian(f[..3][..2]) * 256 + raw[start + 2];
    assert BigEndian(f) == BigEndian(f[..3]) * 256 + raw[start + 3];
  }

  datatype Header = Header(
    headerString: seq<Byte>,     // bytes 0..14, kept undecoded
    pageSize: nat,
    formatReadVersion: nat,
    formatWriteVersion: nat,
    reservedSpace: nat,
    maxEmbeddedPayload: nat,
    minEmbeddedPayload: nat,
    leafPayload: nat,
    changeCounter: nat,
    pageCount: nat,
    freelistStart: nat,
    freelistCount: nat,
    schemaCookie: nat,
    schemaFormat: nat,
    pageCacheSize: nat,
    largestRootPage: nat,
    textEncoding: Option<string>,
    userVersion: nat,
    incrementalVacuumMode: bool,
    applicationId: nat,
    reserved: nat,
    versionValidFor: nat,
    sqliteVersionNumber: nat)

  /** The raw page-size field, with the value 1 standing for 65536. */
  function DecodePageSize(rawValue: nat): nat
  {
    if rawValue == 1 then 65536 else rawValue
  }

  function DecodeTextEncoding(encodingValue: nat): Option<string>
  {
    if encodingValue in [1, 2, 3] then Some(TextEncodings[encodingValue - 1]) else None
  }

  /** `SQLiteHeader.__init__` after the file read: decodes every field of the raw header. */
  function Parse(raw: seq<Byte>): Header
  {
    Header(
      headerString := Slice(raw, 0, 15),
      pageSize := DecodePageSize(ReadInt(raw, 16, 2)),
      formatReadVersion := ReadInt(raw, 18, 1),
      formatWriteVersion := ReadInt(raw, 19, 1),
      reservedSpace := ReadInt(raw, 20, 1),
      maxEmbeddedPayload := ReadInt(raw, 21, 1),
      minEmbeddedPayload := ReadInt(raw, 22, 1),
      leafPayload := ReadInt(raw, 23, 1),
      changeCounter := ReadInt(raw, 24, 4),
      pageCount := ReadInt(raw, 28, 4),
      freelistStart := ReadInt(raw, 32, 4),
      freelistCount := ReadInt(raw, 36, 4),
      schemaCookie := ReadInt(raw, 40, 4),
      schemaFormat := ReadInt(raw, 44, 4),
      pageCacheSize := ReadInt(raw, 48, 4),
      largestRootPage := ReadInt(raw, 52, 4),
      textEncoding := DecodeTextEncoding(ReadInt(raw, 56, 4)),
      userVersion := ReadInt(raw, 60, 4),
      incrementalVacuumMode := ReadInt(raw, 64, 4) != 0,
      applicationId := ReadInt(raw, 68, 4),
      reserved := ReadInt(raw, 72, 20),
      versionValidFor := ReadInt(raw, 92, 4),
      sqliteVersionNumber := ReadInt(raw, 96, 4))
  }

  /** Every decoded field fits its width: one byte < 2^8, four bytes < 2^32. */
  lemma ParseFieldBounds(raw: seq<Byte>)
    ensures var h := Parse(raw);
      && h.formatReadVersion < 256 && h.formatWriteVersion < 256 && h.reservedSpace < 256
      && h.maxEmbeddedPayload < 256 && h.minEmbeddedPayload < 256 && h.leafPayload < 256
      && h.changeCounter < 0x1_0000_0000 && h.pageCount < 0x1_0000_0000
      && h.freelistStart < 0x1_0000_0000 && h.freelistCount < 0x1_0000_0000
      && h.schemaCookie < 0x1_0000_0000 && h.schemaFormat < 0x1_0000_0000
      && h.pageCacheSize < 0x1_0000_0000 && h.largestRootPage < 0x1_0000_0000
      && h.userVersion < 0x1_0000_0000 && h.applicationId < 0x1_0000_0000
      && h.versionValidFor < 0x1_0000_0000 && h.sqliteVersionNumber < 0x1_0000_0000
  {
    assert Pow256(1) == 256;
    assert Pow256(4) == 0x1_0000_0000;
  }

  /** The page size is the two-byte field at offset 16, except that raw 1 means 65536. */
  lemma PageSizeDecoding(raw: seq<Byte>)
    requires |raw| >= HeaderSizeBytes
    ensures var h := Parse(raw);
      && h.pageSize != 1
      && h.pageSize <= 65536
      && (h.pageSize == 65536 <==> raw[16] == 0 && raw[17] == 1)
      && (h.pageSize != 65536 ==> h.pageSize == raw[16] as int * 256 + raw[17])
  {
    var v := ReadInt(raw, 16, 2);
    ReadIntTwoBytes(raw, 16);
    PageSizeField(v, raw[16], raw[17]);
    assert Parse(raw).pageSize == DecodePageSize(v);
  }

  lemma PageSizeField(v: nat, hi: Byte, lo: Byte)
    requires v == hi as int * 256 + lo as int
    ensures var p := DecodePageSize(v);
      && p != 1 && p <= 65536
      && (p == 65536 <==> hi == 0 && lo == 1)
      && (p != 65536 ==> p == v)
  {
    if hi != 0 {
      assert hi as int * 256 >= 256;
    }
  }

  /** Raw encodings 1, 2 and 3 name UTF-8, UTF-16le and UTF-16be; every other value gives None. */
  lemma TextEncodingDecoding(raw: seq<Byte>)
    ensures var v := ReadInt(raw, 56, 4); var e := Parse(raw).textEncoding;
      && (e == Some("UTF-8") <==> v == 1)
      && (e == Some("UTF-16le") <==> v == 2)
      && (e == Some("UTF-16be") <==> v == 3)
      && (e == None <==> v !in {1, 2, 3})
  {
  }

  /** A field reads as zero exactly when all of its bytes are zero. */
  lemma ReadIntZero(raw: seq<Byte>, start: nat, length: nat)
    requires start + length <= |raw|
    ensures ReadInt(raw, start, length) == 0 <==> forall i :: start <= i < start + length ==> raw[i] == 0
  {
    var field := raw[start..start + length];
    assert ReadInt(raw, start, length) == BigEndian(field);
    BigEndianZero(field);
    FieldAllZero(raw, start, length);
  }

  lemma FieldAllZero(raw: seq<Byte>, start: nat, length: nat)
    requires start + length <= |raw|
    ensures var field := raw[start..start + length];
      (forall k :: 0 <= k < |field| ==> field[k] == 0) <==> forall i :: start <= i < start + length ==> raw[i] == 0
  {
    var field := raw[start..start + length];
    assert forall i :: start <= i < start + length ==> raw[i] == field[i - start];
  }

  /** The incremental-vacuum flag is set iff one of the bytes 64..67 is nonzero. */
  lemma IncrementalVacuumDecoding(raw: seq<Byte>)
    requires |raw| >= HeaderSizeBytes
    ensures Parse(raw).incrementalVacuumMode <==> exists i :: 64 <= i < 68 && raw[i] != 0
  {
    ReadIntZero(raw, 64, 4);
  }

  /** The reserved block reads as 0 iff all twenty bytes 72..91 are zero. */
  lemma ReservedDecoding(raw: seq<Byte>)
    requires |raw| >= HeaderSizeBytes
    ensures Parse(raw).reserved == 0 <==> forall i :: 72 <= i < 92 ==> raw[i] == 0
  {
    ReadIntZero(raw, 72, 20);
  }

  // ---- Validity ----

  /** Integer form of `log(n, 2).is_integer()`. */
  predicate IsPowerOfTwo(n: nat)
  {
    n > 0 && (n == 1 || (n % 2 == 0 && IsPowerOfTwo(n / 2)))
  }

  function Pow2(k: nat): (r: nat)
    ensures r > 0
  {
    if k == 0 then 1 else 2 * Pow2(k - 1)
  }

  /** IsPowerOfTwo agrees with the definition by exponent, in both directions. */
  lemma {:induction false} PowerOfTwoExponent(n: nat)
    ensures IsPowerOfTwo(n) <==> exists k: nat :: Pow2(k) == n
  {
    if IsPowerOfTwo(n) {
      if n == 1 {
        assert Pow2(0) == n;
      } else {
        PowerOfTwoExponent(n / 2);
        var k: nat :| Pow2(k) == n / 2;
        assert Pow2(k + 1) == n;
      }
    }
    if k: nat :| Pow2(k) == n {
      PowerOfTwoOfExponent(k);
    }
  }

  lemma {:induction false} PowerOfTwoOfExponent(k: nat)
    ensures IsPowerOfTwo(Pow2(k))
  {
    if k > 0 {
      PowerOfTwoOfExponent(k - 1);
      assert Pow2(k) / 2 == Pow2(k - 1);
    }
  }

  /** The constraints on page size as the source writes them. */
  predicate PageSizeOk(pageSize: nat)
  {
    IsPowerOfTwo(pageSize) && (512 <= pageSize <= 32768 || pageSize == 65535)
  }

  /** The constraints on every other field. */
  predicate OtherFieldsOk(h: Header)
  {
    && h.formatReadVersion in {1, 2}
    && h.formatWriteVersion in {1, 2}
    && h.maxEmbeddedPayload == 64
    && h.minEmbeddedPayload == 32
    && h.leafPayload == 32
    && h.schemaFormat in {1, 2, 3, 4}
    && h.textEncoding != None
    && h.reserved == 0
  }

  /** `header_seems_valid`, as written. */
  predicate HeaderSeemsValid(h: Header)
  {
    PageSizeOk(h.pageSize) && OtherFieldsOk(h)
  }

  /**
    A file shorter than 16 bytes, an empty one included, has no page-size
    field: every slice past its end is empty, so the page size, the page
    count and the encoding value all read 0.
  */
  lemma ShortHeaderDecoding(raw: seq<Byte>)
    requires |raw| <= 16
    ensures Parse(raw).pageSize == 0 && Parse(raw).pageCount == 0 && Parse(raw).textEncoding == None
  {
    assert Parse(raw).pageSize == DecodePageSize(ReadInt(raw, 16, 2)) == 0;
  }

  lemma {:induction false} Pow2Monotone(a: nat, b: nat)
    requires a < b
    ensures Pow2(a) < Pow2(b)
  {
    if a < b - 1 {
      Pow2Monotone(a, b - 1);
    }
  }

  /** A power of two in 512..32768 is one of the seven SQLite page sizes up to 32768. */
  lemma PowerOfTwoInRange(n: nat)
    requires IsPowerOfTwo(n) && 512 <= n <= 32768
    ensures n in {512, 1024, 2048, 4096, 8192, 16384, 32768}
  {
    PowerOfTwoExponent(n);
    var k: nat :| Pow2(k) == n;
    assert Pow2(9) == 512 && Pow2(15) == 32768;
    if k < 9 {
      Pow2Monotone(k, 9);
    } else if k > 15 {
      Pow2Monotone(15, k);
    }
    assert 9 <= k <= 15;
    assert k in {9, 10, 11, 12, 13, 14, 15};
  }

  lemma {:induction false} Pow2Add(a: nat, b: nat)
    ensures Pow2(a + b) == Pow2(a) * Pow2(b)
  {
    if b > 0 {
      Pow2Add(a, b - 1);
    }
  }

  lemma PowerOfTwo65536()
    ensures IsPowerOfTwo(65536) && !IsPowerOfTwo(65535)
  {
    PowerOfTwoOfExponent(16);
    assert Pow2(8) == 256;
    assert Pow2(16) == 65536 by {
      Pow2Add(8, 8);
    }
  }

  /**
    header_seems_valid fails whenever a constrained field is out of range, and
    a header it accepts has one of the page sizes 512, 1024, ..., 32768.
  */
  lemma ValidHeaderFields(h: Header)
    requires HeaderSeemsValid(h)
    ensures h.pageSize in {512, 1024, 2048, 4096, 8192, 16384, 32768}
    ensures h.formatReadVersion in {1, 2} && h.formatWriteVersion in {1, 2}
    ensures h.maxEmbeddedPayload == 64 && h.minEmbeddedPayload == 32 && h.leafPayload == 32
    ensures h.schemaFormat in {1, 2, 3, 4}
    ensures h.textEncoding != None
    ensures h.reserved == 0
  {
    assert !IsPowerOfTwo(65535);
    PowerOfTwoInRange(h.pageSize);
  }

  /** The seven page sizes 512..32768 are all powers of two. */
  lemma SmallPageSizesArePowers()
    ensures forall n :: n in {512, 1024, 2048, 4096, 8192, 16384, 32768} ==> IsPowerOfTwo(n)
  {
    assert Pow2(9) == 512 && Pow2(15) == 32768;
    PowerOfTwoOfExponent(9);
    PowerOfTwoOfExponent(10);
    PowerOfTwoOfExponent(11);
    PowerOfTwoOfExponent(12);
    PowerOfTwoOfExponent(13);
    PowerOfTwoOfExponent(14);
    PowerOfTwoOfExponent(15);
  }

  /**
    As written, header_seems_valid accepts a header exactly when its page
    size is one of 512, 1024, ..., 32768 and every other constrained field
    holds an allowed value.
  */
  lemma HeaderValidityCharacterized(h: Header)
    ensures HeaderSeemsValid(h)
        <==> h.pageSize in {512, 1024, 2048, 4096, 8192, 16384, 32768} && OtherFieldsOk(h)
  {
    SmallPageSizesArePowers();
    if HeaderSeemsValid(h) {
      ValidHeaderFields(h);
    }
  }

  /**
    As written, a header whose raw page-size field is 1 (page size 65536) is
    never accepted: 65536 is outside 512..32768 and the alternative 65535 is
    not a power of two.
  */
  lemma LargestPageSizeRejected(raw: seq<Byte>)
    requires |raw| >= HeaderSizeBytes && raw[16] == 0 && raw[17] == 1
    ensures Parse(raw).pageSize == 65536
    ensures !HeaderSeemsValid(Parse(raw))
  {
    PageSizeDecoding(raw);
  }

  /** The evidently intended page-size constraint: 65536 rather than 65535. */
  predicate PageSizeOkIntended(pageSize: nat)
  {
    IsPowerOfTwo(pageSize) && (512 <= pageSize <= 32768 || pageSize == 65536)
  }

  predicate HeaderSeemsValidIntended(h: Header)
  {
    PageSizeOkIntended(h.pageSize) && OtherFieldsOk(h)
  }

  /** Under the intended check a valid header's page size is a power of two in 512..65536. */
  lemma IntendedPageSizeRange(h: Header)
    requires HeaderSeemsValidIntended(h)
    ensures h.pageSize in {512, 1024, 2048, 4096, 8192, 16384, 32768, 65536}
  {
    if h.pageSize != 65536 {
      PowerOfTwoInRange(h.pageSize);
    }
  }

  /** The two checks differ exactly on page size 65536. */
  lemma IntendedDiffersOnlyAt65536(h: Header)
    ensures HeaderSeemsValid(h) <==> HeaderSeemsValidIntended(h) && h.pageSize != 65536
  {
    assert !IsPowerOfTwo(65535);
  }

  /** Under the intended check a raw page-size field of 1 is accepted when the other fields are. */
  lemma LargestPageSizeAcceptedIntended(raw: seq<Byte>)
    requires |raw| >= HeaderSizeBytes && raw[16] == 0 && raw[17] == 1
    requires OtherFieldsOk(Parse(raw))
    ensures HeaderSeemsValidIntended(Parse(raw))
  {
    PageSizeDecoding(raw);
    PowerOfTwo65536();
  }
}
