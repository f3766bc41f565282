/**
 Normalisation of the submitted signature image: a `data:image/...` URI
 keeps only the text between its first and second comma, falling back to
 the whole input when that text is empty or missing.
 */
module Normalizer {
  import opened JsString

  const DataImagePrefix: string := "data:image/"

  /** The `base64Data` computed for a submission's `signature_data`:
      `split(',')[1] || signature_data` for a data-URI, the input otherwise. */
  function NormalizeImage(data: string): (image: string)
    ensures !StartsWith(data, DataImagePrefix) ==> image == data
    ensures image == data || (image != [] && ',' !in image)
    ensures data != [] ==> image != []
  {
    if StartsWith(data, DataImagePrefix) then
      var parts := Split(data, ',');
      if |parts| >= 2 && parts[1] != [] then parts[1] else data
    else
      data
  }

  /** The image is the text between the first and the second comma of a
      `data:image/` input (or up to its end when there is one comma only),
      as long as that text is non-empty; in every other case it is the
      input itself. */
  lemma NormalizeImageBetweenCommas(data: string)
    ensures var i := IndexOf(data, ',', 0);
            NormalizeImage(data) ==
              if StartsWith(data, DataImagePrefix) && i < |data| && i + 1 < IndexOf(data, ',', i + 1)
              then data[i + 1..IndexOf(data, ',', i + 1)]
              else data
  {
    var i := IndexOf(data, ',', 0);
    if i < |data| {
      SplitSecondPiece(data, ',', i, IndexOf(data, ',', i + 1));
    } else {
      SplitFirstPieces(data, ',');
    }
  }

  /** In `head,segment[,rest]` with no comma in the segment, the comma
      after the first one ends the segment. */
  lemma SecondComma(head: string, segment: string, rest: string)
    requires ',' !in segment
    requires rest == [] || rest[0] == ','
    ensures IndexOf(head + ([','] + (segment + rest)), ',', |head| + 1) == |head| + 1 + |segment|
  {
    var data := head + ([','] + (segment + rest));
    IndexOfAfterPrefix(segment, rest, ',');
    MiddleSlice(head, [','], segment + rest);
    IndexOfSuffix(data, ',', |head| + 1);
  }

  /** The segment sits between the first comma and the next. */
  lemma SegmentSlice(head: string, segment: string, rest: string)
    ensures (head + ([','] + (segment + rest)))[|head| + 1..|head| + 1 + |segment|] == segment
  {
    var data := head + ([','] + (segment + rest));
    MiddleSlice(head, [','], segment + rest);
    ConcatPrefix(segment, rest);
    SliceOfSuffix(data, |head| + 1, |segment|);
  }

  /** Conversely: for a data-URI `head,segment[,rest]` whose head and
      segment hold no comma, the image is the segment when it is
      non-empty and the whole input otherwise. */
  lemma NormalizeImageOfSegments(head: string, segment: string, rest: string)
    requires StartsWith(head, DataImagePrefix)
    requires ',' !in head && ',' !in segment
    requires rest == [] || rest[0] == ','
    ensures NormalizeImage(head + [','] + segment + rest) ==
            (if segment != [] then segment else head + [','] + segment + rest)
  {
    var data := head + ([','] + (segment + rest));
    IndexOfAfterPrefix(head, [','] + (segment + rest), ',');
    SecondComma(head, segment, rest);
    SegmentSlice(head, segment, rest);
    StartsWithConcat(head, [','] + (segment + rest), DataImagePrefix);
    NormalizeImageBetweenCommas(data);
    assert NormalizeImage(data) == if segment != [] then segment else data;
    Regroup(head + [','], segment, rest);
    Regroup(head, [','], segment + rest);
  }

  /** Normalising an already normalised image changes nothing. */
  lemma NormalizeImageIdempotent(data: string)
    ensures NormalizeImage(NormalizeImage(data)) == NormalizeImage(data)
  {
    var image := NormalizeImage(data);
    if image != data {
      IndexOfIs(image, ',', 0, |image|);
      SplitFirstPieces(image, ',');
    }
  }

  /** A one-comma data-URI loses its header. */
  lemma NormalizeImageStripsHeader()
    ensures NormalizeImage("data:image/png;base64,AAA") == "AAA"
  {
    var head := "data:image/png;base64";
    assert head[..|DataImagePrefix|] == DataImagePrefix;
    NormalizeImageOfSegments(head, "AAA", "");
    assert head + [','] + "AAA" + "" == "data:image/png;base64,AAA";
  }

  /** With a second comma only the middle segment is kept, not everything
      after the first comma. */
  lemma NormalizeImageKeepsMiddleSegment()
    ensures NormalizeImage("data:image/png;base64,AAA,BBB") == "AAA"
  {
    var head := "data:image/png;base64";
    assert head[..|DataImagePrefix|] == DataImagePrefix;
    NormalizeImageOfSegments(head, "AAA", ",BBB");
    assert head + [','] + "AAA" + ",BBB" == "data:image/png;base64,AAA,BBB";
  }

  /** An empty segment keeps the whole input. */
  lemma NormalizeImageEmptySegment()
    ensures NormalizeImage("data:image/png;base64,") == "data:image/png;base64,"
  {
    var head := "data:image/png;base64";
    assert head[..|DataImagePrefix|] == DataImagePrefix;
    NormalizeImageOfSegments(head, "", "");
    assert head + [','] + "" + "" == "data:image/png;base64,";
  }
}
