/** The header parsing of `Base64ImageField.to_internal_value`: a data URI
    `data:image/<ext>;base64,<payload>` becomes a file named `temp.<ext>`;
    any other value is handed on unchanged. */
module ImageField {
  import opened Base
  import Text

  const DATA_IMAGE_PREFIX: string := "data:image"
  const BASE64_MARKER: string := ";base64,"
  const TEMP_NAME_PREFIX: string := "temp."

  /** What the client sent for the image: a string, or some other value
      (an uploaded file) that the field does not inspect. */
  datatype ImageData = TextData(s: string) | OtherData(handle: nat)

  /** What the field hands to `ImageField.to_internal_value`: the named file
      built from a data URI (its payload still base64 text), or the input. */
  datatype ImageValue = Decoded(fileName: string, payload: string) | Unchanged(data: ImageData)

  /** `format.split('/')[-1]`: the text after the last '/', or the whole
      header when it has none. */
  function Extension(header: string): (ext: string)
    ensures '/' !in ext
    ensures |ext| <= |header| && header[|header| - |ext|..] == ext
    ensures '/' !in header ==> ext == header
    ensures '/' in header ==> |ext| < |header| && header[|header| - |ext| - 1] == '/'
  {
    var parts := Text.Split(header, "/");
    NoSlashInPiece(Last(parts));
    LastPieceOfJoin(header, parts);
    if '/' in header then
      SplitOfSlashedHasTwoParts(header);
      Last(parts)
    else
      SplitWithoutSeparator(header, '/');
      Last(parts)
  }

  /** The last piece of a '/'-join ends the joined text, right after a '/'
      when there are two pieces or more. */
  lemma LastPieceOfJoin(header: string, parts: seq<string>)
    requires |parts| >= 1 && Text.Join(parts, "/") == header
    ensures |Last(parts)| <= |header| && header[|header| - |Last(parts)|..] == Last(parts)
    ensures |parts| >= 2 ==> |Last(parts)| < |header| && header[|header| - |Last(parts)| - 1] == '/'
  {
    Text.JoinEndsWithLast(parts, "/");
    if |parts| >= 2 {
      JoinLastSeparated(parts, "/");
      var front := Text.Join(parts[..|parts| - 1], "/");
      assert header == front + "/" + Last(parts);
      assert header[|front|] == '/';
    }
  }

  function Last(parts: seq<string>): string
    requires |parts| >= 1
  {
    parts[|parts| - 1]
  }

  /** `Base64ImageField.to_internal_value` up to the base64 decoding. */
  function ToInternalValue(data: ImageData): (r: Result<ImageValue>)
    ensures !(data.TextData? && DATA_IMAGE_PREFIX <= data.s) ==> r == Ok(Unchanged(data))
    ensures data.TextData? && DATA_IMAGE_PREFIX <= data.s ==>
              (r.Ok? <==> |Text.Split(data.s, BASE64_MARKER)| == 2)
    ensures r.Err? ==> r.error == MalformedDataUri
    ensures r.Ok? && r.value.Decoded? ==>
              && data.TextData?
              && r.value.fileName == TEMP_NAME_PREFIX + Extension(Text.Split(data.s, BASE64_MARKER)[0])
              && data.s == Text.Split(data.s, BASE64_MARKER)[0] + BASE64_MARKER + r.value.payload
  {
    match data
    case OtherData(_) => Ok(Unchanged(data))
    case TextData(s) =>
      if !(DATA_IMAGE_PREFIX <= s) then Ok(Unchanged(data))
      else
        var parts := Text.Split(s, BASE64_MARKER);
        if |parts| != 2 then Err(MalformedDataUri)
        else
          assert Text.Join(parts, BASE64_MARKER) == parts[0] + BASE64_MARKER + parts[1];
          Ok(Decoded(TEMP_NAME_PREFIX + Extension(parts[0]), parts[1]))
  }

  /** A data URI built from an extension and a payload (neither holding the
      characters that delimit the header) parses back to exactly that
      extension and payload. */
  lemma DataUriRoundTrip(ext: string, payload: string)
    requires '/' !in ext && ';' !in ext && ';' !in payload
    ensures ToInternalValue(TextData(DATA_IMAGE_PREFIX + "/" + ext + BASE64_MARKER + payload))
            == Ok(Decoded(TEMP_NAME_PREFIX + ext, payload))
  {
    var header := DATA_IMAGE_PREFIX + "/" + ext;
    var s := header + BASE64_MARKER + payload;
    assert DATA_IMAGE_PREFIX <= s by {
      assert s[..|DATA_IMAGE_PREFIX|] == DATA_IMAGE_PREFIX;
    }
    assert ';' !in header by {
      assert ';' !in DATA_IMAGE_PREFIX + "/";
    }
    assert BASE64_MARKER[1..] == "base64,";
    Text.SplitAroundUniqueMarker(header, BASE64_MARKER, payload);
    ExtensionOfImageHeader(ext);
  }

  /** The extension of `data:image/<ext>` is `<ext>`. */
  lemma ExtensionOfImageHeader(ext: string)
    requires '/' !in ext
    ensures Extension(DATA_IMAGE_PREFIX + "/" + ext) == ext
  {
    assert '/' !in DATA_IMAGE_PREFIX;
    Text.SplitAroundUniqueMarker(DATA_IMAGE_PREFIX, "/", ext);
  }

  // ---------------------------------------------------------------------
  // Facts about splitting on one character

  lemma NoSlashInPiece(piece: string)
    requires !Text.Contains(piece, "/")
    ensures '/' !in piece
  {
    forall k | 0 <= k < |piece|
      ensures piece[k] != '/'
    {
      if piece[k] == '/' {
        assert piece[k..k + 1] == "/";
        assert Text.OccursAt(piece, "/", k);
      }
    }
  }

  lemma SplitWithoutSeparator(s: string, c: char)
    requires c !in s
    ensures Text.Split(s, [c]) == [s]
  {
    forall j: nat
      ensures !Text.OccursAt(s, [c], j)
    {
      Text.OccursAtHead(s, [c], j);
    }
    assert Text.IndexOfFrom(s, [c], 0).None?;
  }

  /** Text without ';' does not contain the base64 marker. */
  lemma SplitWithoutMarker(s: string)
    requires ';' !in s
    ensures Text.Split(s, BASE64_MARKER) == [s]
  {
    forall j: nat
      ensures !Text.OccursAt(s, BASE64_MARKER, j)
    {
      Text.OccursAtHead(s, BASE64_MARKER, j);
    }
    assert Text.IndexOfFrom(s, BASE64_MARKER, 0).None?;
  }

  lemma SplitOfSlashedHasTwoParts(s: string)
    requires '/' in s
    ensures |Text.Split(s, "/")| >= 2
  {
    var k :| 0 <= k < |s| && s[k] == '/';
    assert s[k..k + 1] == "/";
    assert Text.OccursAt(s, "/", k);
    assert Text.IndexOfFrom(s, "/", 0).Some?;
  }

  /** A join of two or more pieces ends in separator + last piece. */
  lemma {:induction false} JoinLastSeparated(parts: seq<string>, sep: string)
    requires |parts| >= 2
    ensures Text.Join(parts, sep) == Text.Join(parts[..|parts| - 1], sep) + sep + parts[|parts| - 1]
    decreases |parts|
  {
    if |parts| > 2 {
      JoinLastSeparated(parts[1..], sep);
      assert parts[1..][..|parts[1..]| - 1] == parts[..|parts| - 1][1..];
      assert parts[1..][|parts[1..]| - 1] == parts[|parts| - 1];
    } else {
      assert parts[..1] == [parts[0]];
    }
  }
}
