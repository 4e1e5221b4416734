/** The `multipart/form-data` body `buildMultipartFormData` builds
    (`src-main/services/api.ts`), as bytes: RFC 7578 form parts framed by the
    delimiters of section 5.1.1 of RFC 2046. `Date.now()` and the random hex
    digits of the boundary are parameters. */
module Multipart {
  import opened Wrappers
  import opened Text
  import opened Utf8

  /** One part of the form: a text field, or a file with its bytes. */
  datatype Part =
    | Field(name: string, value: string)
    | File(name: string, filename: string, contentType: Option<string>, data: seq<byte>)

  /** `----veo-studio-${Date.now()}-${Math.random().toString(16).slice(2)}`. */
  function Boundary(now: nat, hex: string): string {
    "----veo-studio-" + NatToString(now) + "-" + hex
  }

  /** `bchars` of section 5.1.1 of RFC 2046. */
  predicate IsBoundaryChar(c: char) {
    || IsDigit(c) || IsAsciiLetter(c) || c == ' '
    || c == '\'' || c == '(' || c == ')' || c == '+' || c == '_' || c == ','
    || c == '-' || c == '.' || c == '/' || c == ':' || c == '=' || c == '?'
  }

  predicate AllBoundaryChars(s: string) {
    forall i :: 0 <= i < |s| ==> IsBoundaryChar(s[i])
  }

  /** A boundary as section 5.1.1 of RFC 2046 allows it: 1 to 70 `bchars`,
      not ending in a space. */
  predicate IsBoundary(b: string) {
    1 <= |b| <= 70 && AllBoundaryChars(b) && b[|b| - 1] != ' '
  }

  /** Lower-case hexadecimal digits, what `toString(16)` writes. */
  predicate IsHex(s: string) {
    forall i :: 0 <= i < |s| ==> IsDigit(s[i]) || 'a' <= s[i] <= 'f'
  }

  lemma AllBoundaryCharsAppend(a: string, b: string)
    requires AllBoundaryChars(a) && AllBoundaryChars(b)
    ensures AllBoundaryChars(a + b)
  {
    forall i | 0 <= i < |a + b| ensures IsBoundaryChar((a + b)[i]) {
      if i < |a| {
        assert (a + b)[i] == a[i];
      } else {
        assert (a + b)[i] == b[i - |a|];
      }
    }
  }

  /** The generated boundary is a valid one exactly when the clock digits
      and the random digits together are at most 54 characters long; the
      fixed text takes the other 16. */
  lemma BoundaryValidIff(now: nat, hex: string)
    requires IsHex(hex)
    ensures IsBoundary(Boundary(now, hex)) <==> |NatToString(now)| + |hex| <= 54
  {
    var fixed := "----veo-studio-";
    assert AllBoundaryChars(fixed) by {
      forall i | 0 <= i < |fixed| ensures IsBoundaryChar(fixed[i]) {
        assert fixed[i] == '-' || IsAsciiLetter(fixed[i]);
      }
    }
    var digits := NatToString(now);
    assert AllBoundaryChars(digits);
    assert AllBoundaryChars(hex) by {
      forall i | 0 <= i < |hex| ensures IsBoundaryChar(hex[i]) {
        assert IsDigit(hex[i]) || IsAsciiLetter(hex[i]);
      }
    }
    AllBoundaryCharsAppend(fixed, digits);
    AllBoundaryCharsAppend(fixed + digits, "-");
    AllBoundaryCharsAppend(fixed + digits + "-", hex);
    var b := Boundary(now, hex);
    assert |b| == 16 + |digits| + |hex|;
    assert b[|b| - 1] != ' ' by {
      if |hex| > 0 {
        assert b[|b| - 1] == hex[|hex| - 1];
      } else {
        assert b[|b| - 1] == '-';
      }
    }
  }

  const OctetStream: string := "application/octet-stream"

  /** `f.contentType || 'application/octet-stream'`. */
  function FileType(contentType: Option<string>): (r: string)
    ensures r != []
    ensures contentType.Some? && contentType.value != [] ==> r == contentType.value
  {
    if contentType.Some? && contentType.value != [] then contentType.value else OctetStream
  }

  /** `--boundary` and a line break: what opens every part. */
  function Delimiter(boundary: string): string {
    "--" + boundary + "\r\n"
  }

  /** `--boundary--` and a line break: what closes the body. */
  function CloseDelimiter(boundary: string): string {
    "--" + boundary + "--\r\n"
  }

  /** The disposition line of a file part. */
  function FileDisposition(name: string, filename: string): string {
    "Content-Disposition: form-data; name=\"" + name + "\"; filename=\"" + filename + "\"\r\n"
  }

  /** The type line of a file part and the blank line after it. */
  function TypeLine(contentType: Option<string>): string {
    "Content-Type: " + FileType(contentType) + "\r\n\r\n"
  }

  /** The disposition line of a field part and the blank line after it. */
  function FieldDisposition(name: string): string {
    "Content-Disposition: form-data; name=\"" + name + "\"\r\n\r\n"
  }

  /** What the builder pushes: text, which goes out in UTF-8, or a file's
      bytes. */
  datatype Chunk = Text(text: string) | Bytes(data: seq<byte>)

  function ChunkBytes(c: Chunk): seq<byte> {
    match c
    case Text(s) => Encode(s)
    case Bytes(d) => d
  }

  /** The pushes for one part, in order. */
  function PartChunks(boundary: string, p: Part): (r: seq<Chunk>)
    ensures |r| > 0 && r[0] == Text(Delimiter(boundary))
  {
    match p
    case Field(name, value) =>
      [Text(Delimiter(boundary)), Text(FieldDisposition(name)), Text(value + "\r\n")]
    case File(name, filename, contentType, data) =>
      [Text(Delimiter(boundary)), Text(FileDisposition(name, filename)),
       Text(TypeLine(contentType)), Bytes(data), Text("\r\n")]
  }

  /** Chunks concatenated in order, what `Buffer.concat` does. */
  function Concat<T>(cs: seq<seq<T>>): seq<T>
    decreases |cs|
  {
    if |cs| == 0 then [] else cs[0] + Concat(cs[1..])
  }

  lemma {:induction false} ConcatAppend<T>(a: seq<seq<T>>, b: seq<seq<T>>)
    ensures Concat(a + b) == Concat(a) + Concat(b)
    decreases |a|
  {
    if |a| > 0 {
      assert (a + b)[1..] == a[1..] + b;
      ConcatAppend(a[1..], b);
    } else {
      assert a + b == b;
    }
  }

  /** Piece `i` sits whole in the concatenation, after the pieces before it
      and before the pieces after it. */
  lemma ConcatAt<T>(cs: seq<seq<T>>, i: nat) returns (o: nat)
    requires i < |cs|
    ensures o == |Concat(cs[..i])|
    ensures |Concat(cs)| == o + |cs[i]| + |Concat(cs[i + 1..])|
    ensures Concat(cs)[o..o + |cs[i]|] == cs[i]
  {
    o := |Concat(cs[..i])|;
    assert cs == cs[..i] + [cs[i]] + cs[i + 1..];
    ConcatAppend(cs[..i] + [cs[i]], cs[i + 1..]);
    ConcatAppend(cs[..i], [cs[i]]);
    assert Concat([cs[i]]) == cs[i] by {
      assert [cs[i]][1..] == [];
    }
  }

  /** The pushes of each part, one sequence per part. */
  function PartsChunks(boundary: string, parts: seq<Part>): (r: seq<seq<Chunk>>)
    ensures |r| == |parts|
    ensures forall i :: 0 <= i < |parts| ==> r[i] == PartChunks(boundary, parts[i])
  {
    seq(|parts|, i requires 0 <= i < |parts| => PartChunks(boundary, parts[i]))
  }

  /** Every push of the builder: the parts, then the closing delimiter. */
  function FormChunks(boundary: string, parts: seq<Part>): (r: seq<Chunk>)
    ensures |r| > 0 && r[|r| - 1] == Text(CloseDelimiter(boundary))
  {
    Concat(PartsChunks(boundary, parts)) + [Text(CloseDelimiter(boundary))]
  }

  /** The bytes of each push. */
  function ChunksBytes(cs: seq<Chunk>): (r: seq<seq<byte>>)
    ensures |r| == |cs|
    ensures forall i :: 0 <= i < |cs| ==> r[i] == ChunkBytes(cs[i])
  {
    seq(|cs|, i requires 0 <= i < |cs| => ChunkBytes(cs[i]))
  }

  /** The body `buildMultipartFormData` returns. */
  function Body(boundary: string, parts: seq<Part>): seq<byte> {
    Concat(ChunksBytes(FormChunks(boundary, parts)))
  }

  /** A file handed to the builder. */
  datatype Upload = Upload(name: string, filename: string, contentType: Option<string>, data: seq<byte>)

  /** The fields in their insertion order, then the files. */
  function FormParts(fields: seq<(string, string)>, files: seq<Upload>): (r: seq<Part>)
    ensures |r| == |fields| + |files|
    ensures forall i :: 0 <= i < |fields| ==> r[i] == Field(fields[i].0, fields[i].1)
    ensures forall i :: 0 <= i < |files| ==> var f := files[i];
      r[|fields| + i] == File(f.name, f.filename, f.contentType, f.data)
  {
    seq(|fields|, i requires 0 <= i < |fields| => Field(fields[i].0, fields[i].1))
      + seq(|files|, i requires 0 <= i < |files| =>
          File(files[i].name, files[i].filename, files[i].contentType, files[i].data))
  }

  /** What `buildMultipartFormData` returns. */
  datatype FormData = FormData(body: seq<byte>, contentType: string)

  const ContentTypePrefix: string := "multipart/form-data; boundary="

  /** `buildMultipartFormData`, with the clock reading and the random hex
      digits as parameters. The header names the boundary that frames the
      body. */
  function BuildForm(fields: seq<(string, string)>, files: seq<Upload>, now: nat, hex: string): (r: FormData)
    ensures StartsWith(r.contentType, ContentTypePrefix)
    ensures var b := r.contentType[|ContentTypePrefix|..];
      b == Boundary(now, hex) && r.body == Body(b, FormParts(fields, files))
  {
    var b := Boundary(now, hex);
    var r := FormData(Body(b, FormParts(fields, files)), ContentTypePrefix + b);
    assert r.contentType[..|ContentTypePrefix|] == ContentTypePrefix;
    r
  }

  /** Piece `i` sits whole in the concatenation even with one more element
      after it. */
  lemma ConcatAtBefore<T>(cs: seq<seq<T>>, last: T, i: nat) returns (o: nat)
    requires i < |cs|
    ensures o == |Concat(cs[..i])|
    ensures var all := Concat(cs) + [last]; o + |cs[i]| < |all| && all[o..o + |cs[i]|] == cs[i]
  {
    o := ConcatAt(cs, i);
    var all := Concat(cs) + [last];
    assert all[..|Concat(cs)|] == Concat(cs);
  }

  /** The pushes of part `i` come whole and in order after those of the
      parts before it, starting with the delimiter. */
  lemma PartAt(boundary: string, parts: seq<Part>, i: nat) returns (o: nat)
    requires i < |parts|
    ensures var cs := FormChunks(boundary, parts); var pc := PartChunks(boundary, parts[i]);
      && o == |Concat(PartsChunks(boundary, parts)[..i])|
      && o + |pc| < |cs| && cs[o..o + |pc|] == pc
      && cs[o] == Text(Delimiter(boundary))
  {
    var pcs := PartsChunks(boundary, parts);
    o := ConcatAtBefore(pcs, Text(CloseDelimiter(boundary)), i);
    assert pcs[i] == PartChunks(boundary, parts[i]);
  }

  /** Push `k` sits whole in the bytes of the pushes, at the byte length
      of the pushes before it. */
  lemma ChunkAt(cs: seq<Chunk>, k: nat) returns (c: nat)
    requires k < |cs|
    ensures var body := Concat(ChunksBytes(cs)); var b := ChunkBytes(cs[k]);
      && c + |b| <= |body| && body[c..c + |b|] == b
      && (k == |cs| - 1 ==> c + |b| == |body|)
      && (k == 0 ==> c == 0)
  {
    var bs := ChunksBytes(cs);
    assert bs[k] == ChunkBytes(cs[k]);
    c := ConcatAt(bs, k);
    if k == |cs| - 1 {
      assert bs[k + 1..] == [];
    }
    if k == 0 {
      assert bs[..0] == [];
    }
  }

  /** Two neighbouring pieces sit side by side in the concatenation. */
  lemma PairAt<T>(cs: seq<seq<T>>, k: nat) returns (o: nat)
    requires k + 1 < |cs|
    ensures var all := Concat(cs);
      o + |cs[k]| + |cs[k + 1]| <= |all| && all[o..o + |cs[k]| + |cs[k + 1]|] == cs[k] + cs[k + 1]
  {
    o := ConcatAt(cs, k);
    var o2 := ConcatAt(cs, k + 1);
    assert cs[..k + 1] == cs[..k] + [cs[k]];
    ConcatAppend(cs[..k], [cs[k]]);
    assert Concat([cs[k]]) == cs[k] by {
      assert [cs[k]][1..] == [];
    }
    var all := Concat(cs);
    assert all[o..o + |cs[k]| + |cs[k + 1]|] == all[o..o + |cs[k]|] + all[o2..o2 + |cs[k + 1]|];
  }

  /** The pushes of a file part: its bytes are the fourth, a line break
      the fifth. */
  lemma FileChunksAt(boundary: string, parts: seq<Part>, i: nat) returns (k: nat)
    requires i < |parts| && parts[i].File?
    ensures var cs := FormChunks(boundary, parts);
      k + 1 < |cs| && cs[k] == Bytes(parts[i].data) && cs[k + 1] == Text("\r\n")
  {
    var o := PartAt(boundary, parts, i);
    var cs := FormChunks(boundary, parts);
    var pc := PartChunks(boundary, parts[i]);
    assert cs[o + 3] == pc[3];
    assert cs[o + 4] == pc[4];
    k := o + 3;
  }

  /** Raw bytes followed by a line break come out in the body as they
      are. */
  lemma BytesThenBreak(cs: seq<Chunk>, k: nat) returns (c: nat)
    requires k + 1 < |cs| && cs[k].Bytes? && cs[k + 1] == Text("\r\n")
    ensures var body := Concat(ChunksBytes(cs)); var data := cs[k].data;
      c + |data| + 2 <= |body| && body[c..c + |data| + 2] == data + [13, 10]
  {
    var bs := ChunksBytes(cs);
    assert bs[k] == cs[k].data;
    assert bs[k + 1] == [13, 10];
    c := PairAt(bs, k);
  }

  /** A file's bytes go into the body unchanged, right after its type line
      and right before a line break. */
  lemma FileDataAt(boundary: string, parts: seq<Part>, i: nat) returns (c: nat)
    requires i < |parts| && parts[i].File?
    ensures var body := Body(boundary, parts); var data := parts[i].data;
      c + |data| + 2 <= |body| && body[c..c + |data| + 2] == data + [13, 10]
  {
    var k := FileChunksAt(boundary, parts, i);
    c := BytesThenBreak(FormChunks(boundary, parts), k);
  }

  /** The bytes of the pushes end with those of the last push. */
  lemma EndsWithLast(cs: seq<Chunk>)
    requires |cs| > 0
    ensures var body := Concat(ChunksBytes(cs)); var b := ChunkBytes(cs[|cs| - 1]);
      |b| <= |body| && body[|body| - |b|..] == b
  {
    var c := ChunkAt(cs, |cs| - 1);
  }

  /** The body ends with the closing delimiter. */
  lemma BodyCloses(boundary: string, parts: seq<Part>)
    ensures var body := Body(boundary, parts); var close := Encode(CloseDelimiter(boundary));
      |close| <= |body| && body[|body| - |close|..] == close
  {
    EndsWithLast(FormChunks(boundary, parts));
  }

  /** A form without parts is the closing delimiter alone. */
  lemma EmptyForm(boundary: string)
    ensures Body(boundary, []) == Encode(CloseDelimiter(boundary))
  {
    var close := Encode(CloseDelimiter(boundary));
    assert PartsChunks(boundary, []) == [];
    assert FormChunks(boundary, []) == [Text(CloseDelimiter(boundary))];
    assert ChunksBytes([Text(CloseDelimiter(boundary))]) == [close];
    assert Concat([close]) == close by {
      assert [close][1..] == [];
    }
  }

  /** A body with parts opens with the first part's delimiter. */
  lemma BodyOpens(boundary: string, parts: seq<Part>)
    requires |parts| > 0
    ensures var body := Body(boundary, parts); var d := Encode(Delimiter(boundary));
      |d| <= |body| && body[..|d|] == d
  {
    var cs := FormChunks(boundary, parts);
    var o := PartAt(boundary, parts, 0);
    assert o == 0 by {
      assert PartsChunks(boundary, parts)[..0] == [];
    }
    var c0 := ChunkAt(cs, 0);
  }
}
