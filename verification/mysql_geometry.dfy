/**
  MySQL's binary-log encoding of a geometry column: a 4-byte prefix followed by a
  standard Well-Known Binary (WKB) geometry. The parser strips the prefix one byte
  at a time and keeps the remaining WKB bytes in an immutable value.
 */
module MySql {
  import opened Wrappers
  import opened ArrayUtils

  /** Number of bytes MySQL puts in front of the WKB payload. */
  const PrefixLength: nat := 4

  /** Index of the first byte kept when `numOfShifts` leading bytes are stripped. */
  function Shifted(numOfShifts: int): nat
  {
    if numOfShifts > 0 then numOfShifts else 0
  }

  /**
    Strips `numOfShifts` leading bytes by deleting index `numOfShifts - 1`, then
    `numOfShifts - 2`, ..., then `0`. It fails exactly when the array is too short,
    and then the very first deletion is the one that throws.
   */
  function ConvertToWkb(source: seq<JavaByte>, numOfShifts: int): (r: Result<seq<JavaByte>, IndexError>)
    ensures r.Success? <==> numOfShifts <= |source|
    ensures r.Failure? ==> r.error == IndexOutOfBounds(numOfShifts - 1, |source|)
    ensures r.Success? ==> |r.value| == |source| - Shifted(numOfShifts)
    decreases numOfShifts
  {
    if numOfShifts > 0 then
      var shiftedIndex := numOfShifts - 1;
      match Remove(source, shiftedIndex)
      case Failure(e) => Failure(e)
      case Success(shifted) => ConvertToWkb(shifted, shiftedIndex)
    else
      Success(source)
  }

  /**
    The one-byte-at-a-time removal is the same as a single slice: the result is
    the source without its first `numOfShifts` bytes (and the source itself when
    `numOfShifts` is not positive).
   */
  lemma {:induction false} ConvertToWkbIsSuffix(source: seq<JavaByte>, numOfShifts: int)
    requires numOfShifts <= |source|
    ensures ConvertToWkb(source, numOfShifts) == Success(source[Shifted(numOfShifts)..])
    decreases numOfShifts
  {
    if numOfShifts > 0 {
      var shifted := Remove(source, numOfShifts - 1).value;
      ConvertToWkbIsSuffix(shifted, numOfShifts - 1);
      RemoveKeepsSuffix(source, numOfShifts);
    }
  }

  /**
    Only the prefix is dropped: every kept byte has the value it had `numOfShifts`
    places further right in the source, and putting the prefix back gives the source.
   */
  lemma {:induction false} ConvertToWkbKeepsPayload(source: seq<JavaByte>, numOfShifts: int)
    requires 0 <= numOfShifts <= |source|
    ensures ConvertToWkb(source, numOfShifts).Success?
    ensures var wkb := ConvertToWkb(source, numOfShifts).value;
      && (forall i :: 0 <= i < |wkb| ==> wkb[i] == source[i + numOfShifts])
      && source[..numOfShifts] + wkb == source
  {
    ConvertToWkbIsSuffix(source, numOfShifts);
    var wkb := ConvertToWkb(source, numOfShifts).value;
    assert wkb == source[numOfShifts..];
    assert source[..numOfShifts] + source[numOfShifts..] == source;
  }

  /** A parsed geometry: the standard WKB bytes left after the MySQL prefix is removed. */
  datatype MySqlGeometry = MySqlGeometry(wkb: seq<JavaByte>)

  /**
    Builds a geometry from the bytes of a binary-log event. Inputs with at least
    four bytes succeed and keep everything after the fourth byte; shorter inputs
    fail with the exception the first deletion (of index 3) throws.
   */
  function FromBytes(mysqlBytes: seq<JavaByte>): (r: Result<MySqlGeometry, IndexError>)
    ensures r.Success? <==> |mysqlBytes| >= PrefixLength
    ensures r.Success? ==> r.value.wkb == mysqlBytes[PrefixLength..]
    ensures r.Failure? ==> r.error == IndexOutOfBounds(PrefixLength - 1, |mysqlBytes|)
  {
    var converted := ConvertToWkb(mysqlBytes, PrefixLength);
    if converted.Success? then
      ConvertToWkbIsSuffix(mysqlBytes, PrefixLength);
      Success(MySqlGeometry(converted.value))
    else
      Failure(converted.error)
  }

  /** The stored WKB bytes. */
  function GetWkb(geometry: MySqlGeometry): seq<JavaByte>
  {
    geometry.wkb
  }

  /**
    Reading the WKB back from a geometry built from `mysqlBytes` gives the input
    minus its four prefix bytes, in order, and the prefix followed by that WKB is
    the original input again.
   */
  lemma {:induction false} FromBytesGetWkb(mysqlBytes: seq<JavaByte>)
    requires |mysqlBytes| >= PrefixLength
    ensures FromBytes(mysqlBytes).Success?
    ensures var wkb := GetWkb(FromBytes(mysqlBytes).value);
      && |wkb| == |mysqlBytes| - PrefixLength
      && (forall i :: 0 <= i < |wkb| ==> wkb[i] == mysqlBytes[i + PrefixLength])
      && mysqlBytes[..PrefixLength] + wkb == mysqlBytes
  {
    assert mysqlBytes[..PrefixLength] + mysqlBytes[PrefixLength..] == mysqlBytes;
  }

  /**
    Whatever the four prefix bytes are, a WKB payload put behind them is recovered
    exactly: prefixing is the inverse of parsing.
   */
  lemma PrefixThenFromBytes(prefix: seq<JavaByte>, payload: seq<JavaByte>)
    requires |prefix| == PrefixLength
    ensures FromBytes(prefix + payload) == Success(MySqlGeometry(payload))
    ensures GetWkb(FromBytes(prefix + payload).value) == payload
  {
    assert (prefix + payload)[PrefixLength..] == payload;
  }
}
