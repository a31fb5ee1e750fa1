/**
 * `dataURItoBlob` in src/content/index.ts: splits a data URI at its commas,
 * decodes the payload with `atob`, reads the MIME type out of the header and
 * copies the decoded characters into a byte array.
 *
 * `atob` is a browser builtin; it is a parameter here that answers with the
 * decoded string, or `None` where the browser throws.  JavaScript's
 * `String.prototype.split` with a one-character separator is `Split`.
 */
module DataUri {
  import opened Wrappers

  newtype byte = x: int | 0 <= x < 256

  /** What `new Blob([ab], { type: mimeString })` holds: the bytes and the normalised type. */
  datatype Blob = Blob(bytes: seq<byte>, mime: string)

  datatype BlobError =
    | InvalidBase64   // `atob` threw
    | NoMimeType      // the header has no ':', so `split(':')[1]` is undefined

  /** `s.split(sep)`: the maximal runs between occurrences of `sep`; the empty string gives `[""]`. */
  function Split(s: string, sep: char): seq<string>
    decreases |s|
  {
    if s == [] then [""]
    else
      var rest := Split(s[1..], sep);
      if s[0] == sep then [""] + rest
      else if rest == [] then [[s[0]]]
      else [[s[0]] + rest[0]] + rest[1..]
  }

  /** `parts.join(sep)`. */
  function Join(parts: seq<string>, sep: char): string
    decreases |parts|
  {
    if parts == [] then ""
    else if |parts| == 1 then parts[0]
    else parts[0] + [sep] + Join(parts[1..], sep)
  }

  /** `split` never answers with an empty list, and no part contains the separator. */
  lemma {:induction false} SplitParts(s: string, sep: char)
    ensures |Split(s, sep)| >= 1
    ensures forall i :: 0 <= i < |Split(s, sep)| ==> sep !in Split(s, sep)[i]
    decreases |s|
  {
    if s != [] {
      SplitParts(s[1..], sep);
      var rest := Split(s[1..], sep);
      if s[0] != sep {
        forall i | 0 <= i < |Split(s, sep)|
          ensures sep !in Split(s, sep)[i]
        {
          if i > 0 {
            assert Split(s, sep)[i] == rest[i];
          }
        }
      }
    }
  }

  /**
   * The first part is the longest prefix free of the separator, and there is
   * a second part exactly when the separator occurs.
   */
  lemma {:induction false} SplitFirst(s: string, sep: char)
    ensures |Split(s, sep)| > 1 <==> sep in s
    ensures Split(s, sep)[0] <= s && sep !in Split(s, sep)[0]
    ensures sep in s ==> s[|Split(s, sep)[0]|] == sep
    ensures sep !in s ==> Split(s, sep)[0] == s
    decreases |s|
  {
    if s != [] && s[0] != sep {
      SplitFirst(s[1..], sep);
      SplitParts(s[1..], sep);
      assert s == [s[0]] + s[1..];
      assert sep in s <==> sep in s[1..];
    }
  }

  /** Joining the parts with the separator gives the string back. */
  lemma {:induction false} SplitJoin(s: string, sep: char)
    ensures Join(Split(s, sep), sep) == s
    decreases |s|
  {
    if s != [] {
      SplitParts(s[1..], sep);
      SplitJoin(s[1..], sep);
      var rest := Split(s[1..], sep);
      if s[0] == sep {
        assert Split(s, sep)[1..] == rest;
        assert [s[0]] + s[1..] == s;
      } else {
        var parts := Split(s, sep);
        if |rest| == 1 {
          assert parts == [[s[0]] + rest[0]];
        } else {
          assert parts[1..] == rest[1..];
          assert Join(rest, sep) == rest[0] + [sep] + Join(rest[1..], sep);
        }
        assert [s[0]] + s[1..] == s;
      }
    }
  }

  /** Splitting a join of separator-free parts gives the parts back. */
  lemma {:induction false} JoinSplit(parts: seq<string>, sep: char)
    requires |parts| >= 1
    requires forall i :: 0 <= i < |parts| ==> sep !in parts[i]
    ensures Split(Join(parts, sep), sep) == parts
    decreases |parts|, |parts[0]|
  {
    var head := parts[0];
    if head == [] {
      if |parts| > 1 {
        JoinSplit(parts[1..], sep);
        assert Join(parts, sep) == [sep] + Join(parts[1..], sep);
        assert ([sep] + Join(parts[1..], sep))[1..] == Join(parts[1..], sep);
        assert parts == [""] + parts[1..];
      }
    } else {
      var shorter := [head[1..]] + parts[1..];
      forall i | 0 <= i < |shorter|
        ensures sep !in shorter[i]
      {
        if i == 0 {
          assert forall c :: c in head[1..] ==> c in head;
        } else {
          assert shorter[i] == parts[i];
        }
      }
      JoinSplit(shorter, sep);
      assert shorter[1..] == parts[1..];
      assert Join(parts, sep) == [head[0]] + Join(shorter, sep);
      assert ([head[0]] + Join(shorter, sep))[1..] == Join(shorter, sep);
      assert head[0] != sep by {
        assert head[0] in head;
      }
      assert [head[0]] + head[1..] == head;
    }
  }

  /** `dataURI.split(',')[1]`, converted to a string by `atob`: "undefined" when there is no comma. */
  function Payload(uri: string): string {
    var parts := Split(uri, ',');
    if |parts| > 1 then parts[1] else "undefined"
  }

  /** `dataURI.split(',')[0].split(':')[1].split(';')[0]`, or `None` where `[1]` is undefined. */
  function MimeType(uri: string): Option<string> {
    var header := Split(uri, ',')[0];
    var colon := Split(header, ':');
    if |colon| < 2 then None else Some(Split(colon[1], ';')[0])
  }

  /**
   * A URI built as `data:<mime>;base64,<payload>` is read back as that MIME
   * type and that payload, when the MIME type holds no ':', ';' or ',' and
   * the payload no ','.
   */
  lemma ParseBuiltUri(mime: string, payload: string)
    requires ':' !in mime && ';' !in mime && ',' !in mime
    requires ',' !in payload
    ensures Payload("data:" + mime + ";base64," + payload) == payload
    ensures MimeType("data:" + mime + ";base64," + payload) == Some(mime)
  {
    var header := "data:" + mime + ";base64";
    var uri := "data:" + mime + ";base64," + payload;
    assert Join([header, payload], ',') == uri;
    assert ',' !in header by {
      assert header == "data:" + mime + ";base64";
    }
    JoinSplit([header, payload], ',');
    var afterColon := mime + ";base64";
    assert Join(["data", afterColon], ':') == header;
    assert ':' !in afterColon by {
      assert afterColon == mime + ";base64";
    }
    JoinSplit(["data", afterColon], ':');
    assert Join([mime, "base64"], ';') == afterColon;
    JoinSplit([mime, "base64"], ';');
  }

  predicate IsUpper(c: char) { 'A' <= c <= 'Z' }

  /** A character the Blob constructor keeps in a type: U+0020 to U+007E. */
  predicate Printable(c: char) { ' ' <= c <= '~' }

  /** ASCII lowercase of one character. */
  function LowerAscii(c: char): char {
    if IsUpper(c) then (c as int + 32) as char else c
  }

  /**
   * The type a Blob keeps for the type it is given, as the File API's Blob
   * constructor normalises it: the empty string when some character lies
   * outside U+0020 to U+007E, otherwise the string in ASCII lowercase.  The
   * kept type is the given one up to ASCII case, or empty.
   */
  function BlobType(t: string): (r: string)
    ensures r == [] || |r| == |t|
    ensures forall i :: 0 <= i < |r| ==> LowerAscii(r[i]) == LowerAscii(t[i])
    ensures forall i :: 0 <= i < |r| ==> Printable(r[i]) && !IsUpper(r[i])
    ensures r == [] <==> t == [] || exists i :: 0 <= i < |t| && !Printable(t[i])
  {
    if forall i :: 0 <= i < |t| ==> Printable(t[i]) then
      seq(|t|, i requires 0 <= i < |t| => LowerAscii(t[i]))
    else
      ""
  }

  /** The Blob constructor keeps a type unchanged exactly when it is printable and has no upper-case letter. */
  lemma BlobTypeFixed(t: string)
    ensures BlobType(t) == t <==> forall i :: 0 <= i < |t| ==> Printable(t[i]) && !IsUpper(t[i])
  {
    if forall i :: 0 <= i < |t| ==> Printable(t[i]) && !IsUpper(t[i]) {
      var r := BlobType(t);
      assert |r| == |t| by {
        if t != [] {
          assert !exists i :: 0 <= i < |t| && !Printable(t[i]);
        }
      }
      forall i | 0 <= i < |t|
        ensures r[i] == t[i]
      {
        assert r[i] == LowerAscii(t[i]);
      }
    }
  }

  /** Normalising a type twice is normalising it once. */
  lemma BlobTypeIdempotent(t: string)
    ensures BlobType(BlobType(t)) == BlobType(t)
  {
    BlobTypeFixed(BlobType(t));
  }

  /** A mixed-case type is kept in lower case. */
  lemma MixedCaseType()
    ensures BlobType("Image/PNG") == "image/png"
  {
    var r := BlobType("Image/PNG");
    assert forall i :: 0 <= i < |"Image/PNG"| ==> Printable("Image/PNG"[i]);
    assert r == seq(9, i requires 0 <= i < 9 => LowerAscii("Image/PNG"[i]));
  }

  /**
   * For a URI built from a printable lower-case MIME type, such as the
   * `image/png` of `canvas.toDataURL`, the blob's type is that MIME type.
   */
  lemma BuiltUriType(mime: string, payload: string)
    requires ':' !in mime && ';' !in mime && ',' !in mime
    requires ',' !in payload
    requires forall i :: 0 <= i < |mime| ==> Printable(mime[i]) && !IsUpper(mime[i])
    ensures MimeType("data:" + mime + ";base64," + payload) == Some(mime)
    ensures BlobType(mime) == mime
  {
    ParseBuiltUri(mime, payload);
    BlobTypeFixed(mime);
  }

  /**
   * The whole conversion.  `atob` runs first, so a bad payload is reported
   * before a missing colon; every decoded character becomes one byte, its
   * code taken modulo 256 as a `Uint8Array` stores it.  The blob's type is
   * the header's MIME type as the Blob constructor normalises it.
   */
  method DataUriToBlob(uri: string, atob: string -> Option<string>) returns (r: Result<Blob, BlobError>)
    ensures atob(Payload(uri)).None? ==> r == Failure(InvalidBase64)
    ensures atob(Payload(uri)).Some? && MimeType(uri).None? ==> r == Failure(NoMimeType)
    ensures atob(Payload(uri)).Some? && MimeType(uri).Some? ==>
      r.Success? && r.value.mime == BlobType(MimeType(uri).value) &&
      |r.value.bytes| == |atob(Payload(uri)).value| &&
      forall i :: 0 <= i < |r.value.bytes| ==> r.value.bytes[i] as int == atob(Payload(uri)).value[i] as int % 256
  {
    var decoded := atob(Payload(uri));
    if decoded.None? {
      return Failure(InvalidBase64);
    }
    var byteString := decoded.value;
    var mimeString := MimeType(uri);
    if mimeString.None? {
      return Failure(NoMimeType);
    }
    var ia := new byte[|byteString|];
    for i := 0 to |byteString|
      invariant forall j :: 0 <= j < i ==> ia[j] as int == byteString[j] as int % 256
    {
      ia[i] := (byteString[i] as int % 256) as byte;
    }
    r := Success(Blob(ia[..], BlobType(mimeString.value)));
  }
}
