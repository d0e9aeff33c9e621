# MySQL geometry prefix normaliser

A Dafny model of `MySqlGeometry` from Debezium's MySQL connector. MySQL writes a
geometry column to the binary log as a 4-byte prefix followed by a standard
Well-Known Binary (WKB) geometry. `MySqlGeometry.fromBytes` strips that prefix with
the recursive helper `convertToWkb`, which deletes the byte at index
`numOfShifts - 1` with Commons Lang's `ArrayUtils.remove` and recurses with
`numOfShifts - 1`. With `numOfShifts = 4` it deletes index 3, then 2, then 1, then 0.
The result is kept in an immutable object and handed back by `getWkb`.

Files:

- `wrappers.dfy`: module `Wrappers`, a `Result` type for the exceptions the Java code lets escape.
- `array_utils.dfy`: module `ArrayUtils`, holding the signed Java byte type `JavaByte`, the
  `IndexOutOfBoundsException` as `IndexError`, and `ArrayUtils.remove` as `Remove`.
- `mysql_geometry.dfy`: module `MySql`, holding `ConvertToWkb`, the `MySqlGeometry` record
  (its constructor is the private Java constructor), `FromBytes` and `GetWkb`.

Byte arrays are immutable `seq<JavaByte>` values. `numOfShifts` is an unbounded `int`.
The only value the code passes is 4, so Java's 32-bit `int` never wraps here.

The main theorem is `MySql.ConvertToWkbIsSuffix`. It proves by induction on
`numOfShifts` that the byte-at-a-time removal equals the single slice
`source[numOfShifts..]`. The inductive step uses `ArrayUtils.RemoveKeepsSuffix`:
deleting index `n - 1` leaves `source[n..]` starting at index `n - 1`.

Short inputs are not excluded by a precondition. The Java code does not check the
length. For an input of fewer than 4 bytes, the first call `ArrayUtils.remove(source, 3)`
throws `IndexOutOfBoundsException`, and `fromBytes` lets it propagate. The model returns
`Failure(IndexOutOfBounds(3, length))` in that case, and `FromBytes` succeeds exactly
when the input has at least 4 bytes. A dedicated "invalid input length" error would be a
defensive addition that the code does not have, so the model follows the code and does
not add one.

## Model

| member | source | states |
|---|---|---|
| ArrayUtils.Remove | debezium-connector-mysql/src/main/java/io/debezium/connector/mysql/MySqlGeometry.java:74 | Removing an element succeeds exactly when the index is inside the array, and otherwise fails with IndexOutOfBounds carrying the index and the length. On success the array is one shorter, elements before the index keep their position, later ones move one place left, and the removed element is the only one lost (multiset equation). |
| ArrayUtils.RemoveKeepsSuffix | debezium-connector-mysql/src/main/java/io/debezium/connector/mysql/MySqlGeometry.java:73-74 | Removing index n-1 from an array of at least n bytes succeeds, and the untouched suffix from index n now starts at index n-1. This is the fact each recursive step relies on. |
| MySql.ConvertToWkb | debezium-connector-mysql/src/main/java/io/debezium/connector/mysql/MySqlGeometry.java:71-78 | The recursion terminates because numOfShifts strictly decreases. It succeeds exactly when numOfShifts is at most the source length. When it fails, the first removal has thrown IndexOutOfBounds(numOfShifts-1, length). The result length is the source length minus numOfShifts, or the full length when numOfShifts is not positive. |
| MySql.ConvertToWkbIsSuffix | debezium-connector-mysql/src/main/java/io/debezium/connector/mysql/MySqlGeometry.java:62-78 | Whenever numOfShifts is at most the length, the recursive single-byte removal equals the slice source[numOfShifts..]. When numOfShifts is not positive, including 0, the source comes back unchanged. |
| MySql.ConvertToWkbKeepsPayload | debezium-connector-mysql/src/main/java/io/debezium/connector/mysql/MySqlGeometry.java:62-78 | Bytes after the prefix keep their values and order, so result[i] == source[i + numOfShifts]. Prepending the removed prefix rebuilds the source. |
| MySql.FromBytes | debezium-connector-mysql/src/main/java/io/debezium/connector/mysql/MySqlGeometry.java:29-42 | fromBytes succeeds exactly when the input has at least 4 bytes. It then stores exactly mysqlBytes[4..] as the wkb. Shorter inputs fail with the IndexOutOfBounds(3, length) thrown by the first removal. |
| MySql.FromBytesGetWkb | debezium-connector-mysql/src/main/java/io/debezium/connector/mysql/MySqlGeometry.java:22-51 | getWkb on a geometry built from at least 4 bytes returns the input minus its first 4 bytes. Its length is the input length minus 4, every byte keeps its value and order, and prefix + wkb is the original input. |
| MySql.PrefixThenFromBytes | debezium-connector-mysql/src/main/java/io/debezium/connector/mysql/MySqlGeometry.java:40-51 | For any 4-byte prefix and any payload, parsing prefix + payload yields a geometry whose wkb is exactly the payload, so adding a prefix is the inverse of parsing. This includes the empty payload, where a 4-byte input gives an empty wkb. |

## Left out

- `getPoint` (MySqlGeometry.java:58-60): it hands the WKB bytes to the external geopackage-wkb
  reader and returns floating-point coordinates. The reader and floating point are not modelled,
  and neither is its failure on malformed WKB.
- WKB grammar (byte-order marker, geometry type code, coordinate payload; OGC Simple Feature
  Access Part 1, section 8.2): the code never looks at these bytes, it only cuts them off the prefix.
- `ArrayUtils.remove` beyond its sequence semantics: the model covers its result and its
  out-of-range failure, but not the exception's message text or the copying of the array.
- A `null` input array, and the mutability of the Java `byte[]` returned by `getWkb`: the model
  uses immutable sequences. Since `GetWkb` is a pure function, repeated calls give the same bytes.
- `MySql.GetWkb` has no row of its own: it is a plain field accessor, and its behaviour is
  stated by `MySql.FromBytesGetWkb` and `MySql.PrefixThenFromBytes`.
