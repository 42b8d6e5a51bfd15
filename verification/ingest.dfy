/** `process_images` and `get_image_extension`: turn submitted base64 image
    entries into stored image file names, skipping every entry that fails. */
module Ingest {
  import opened Wrappers
  import opened Strings

  newtype byte = x: int | 0 <= x < 256

  /** The library and file-system calls one entry goes through, as
      parameters, each `None`/`false` where the Python call raises:
      - `decode`: `base64.b64decode`;
      - `sniff`: the `format` attribute of `PIL.Image.open` on the bytes;
      - `hexDigest`: `hashlib.sha256(s.encode()).hexdigest()`, total because
        a string here holds Unicode scalar values only, so `encode()` cannot raise;
      - `save`: writing the bytes to `images/<name>`. */
  datatype Codecs = Codecs(
    decode: string -> Option<seq<byte>>,
    sniff: seq<byte> -> Option<string>,
    hexDigest: string -> string,
    save: (string, seq<byte>) -> bool)

  const DataImagePrefix: string := "data:image/"

  /** The extension used when the image format cannot be determined. */
  const DefaultExtension: string := "jpg"

  /** How many hex digits of the digest name a stored file. */
  const HashPrefixLength: nat := 10

  /** The payload to decode: an entry starting `data:image/` keeps what follows
      its first comma, and has none (the `IndexError` of `split(',', 1)[1]`)
      when it has no comma; any other entry is decoded as it is. */
  function StripDataUrl(entry: string): (r: Option<string>)
    ensures !StartsWith(entry, DataImagePrefix) ==> r == Some(entry)
    ensures StartsWith(entry, DataImagePrefix) ==> (r.None? <==> ',' !in entry)
    ensures r.Some? && StartsWith(entry, DataImagePrefix) ==>
      var i := |entry| - |r.value| - 1;
      0 <= i && entry[i] == ',' && ',' !in entry[..i] && entry[i + 1..] == r.value
  {
    if StartsWith(entry, DataImagePrefix) then
      if ',' in entry then Some(entry[IndexOf(entry, ',') + 1..]) else None
    else Some(entry)
  }

  /** A data URL gives back exactly its payload, commas in the payload included. */
  lemma DataUrlPayload(mediaType: string, payload: string)
    requires ',' !in mediaType
    ensures StripDataUrl(DataImagePrefix + mediaType + "," + payload) == Some(payload)
  {
    var entry := DataImagePrefix + mediaType + "," + payload;
    assert entry[..|DataImagePrefix|] == DataImagePrefix;
    assert entry[|DataImagePrefix| + |mediaType|] == ',';
    var i := IndexOf(entry, ',');
    assert ',' !in DataImagePrefix + mediaType;
    assert forall k :: 0 <= k < |DataImagePrefix + mediaType| ==> entry[k] == (DataImagePrefix + mediaType)[k];
    assert entry[..|DataImagePrefix + mediaType| + 1][|DataImagePrefix + mediaType|] == ',';
    assert entry[i + 1..] == payload;
  }

  /** `get_image_extension`: the sniffed format in lower case, or `jpg` when
      the format cannot be determined. */
  function ImageExtension(bytes: seq<byte>, sniff: seq<byte> -> Option<string>): (r: string)
    ensures sniff(bytes).None? ==> r == DefaultExtension
    ensures forall i :: 0 <= i < |r| ==> !('A' <= r[i] <= 'Z')
    ensures sniff(bytes).Some? ==> |r| == |sniff(bytes).value|
    ensures sniff(bytes).Some? ==>
      forall i :: 0 <= i < |r| ==>
        var c := sniff(bytes).value[i];
        if 'A' <= c <= 'Z' then r[i] as int == c as int + 32 else r[i] == c
  {
    match sniff(bytes)
    case Some(format) => Lower(format)
    case None => DefaultExtension
  }

  predicate IsHexDigit(c: char)
  {
    '0' <= c <= '9' || 'a' <= c <= 'f'
  }

  /** What `hexdigest()` returns: lower-case hex digits only. */
  predicate IsHex(s: string)
  {
    forall i :: 0 <= i < |s| ==> IsHexDigit(s[i])
  }

  /** The stored file name: the first ten digest digits, a dot, the extension. */
  function FileName(digest: string, ext: string): string
  {
    Take(digest, HashPrefixLength) + "." + ext
  }

  /** Cut a file name at its first dot into stem and extension. */
  function SplitFileName(name: string): (string, string)
  {
    if '.' in name then
      var i := IndexOf(name, '.');
      (name[..i], name[i + 1..])
    else (name, "")
  }

  /** A stored image name gives back its digest prefix and its extension. */
  lemma FileNameRoundTrip(digest: string, ext: string)
    requires IsHex(digest)
    ensures SplitFileName(FileName(digest, ext)) == (Take(digest, HashPrefixLength), ext)
    ensures |SplitFileName(FileName(digest, ext)).0| == if |digest| < HashPrefixLength then |digest| else HashPrefixLength
  {
    var stem := Take(digest, HashPrefixLength);
    var name := stem + "." + ext;
    assert forall j :: 0 <= j < |stem| ==> stem[j] == digest[j];
    assert '.' !in stem;
    assert name[|stem|] == '.';
    var i := IndexOf(name, '.');
    assert forall k :: 0 <= k < |stem| ==> name[k] == stem[k];
    assert name[..|stem| + 1][|stem|] == '.';
    assert name[..i] == stem;
    assert name[i + 1..] == ext;
  }

  /** One iteration of the loop in `process_images`: the stored file name, or
      `None` when any step raises and the entry is skipped. */
  function ProcessEntry(entry: string, stamp: string, codecs: Codecs): (r: Option<string>)
    ensures StripDataUrl(entry).None? ==> r.None?
    ensures r.Some? ==>
      && StripDataUrl(entry).Some?
      && codecs.decode(StripDataUrl(entry).value).Some?
      && codecs.save(r.value, codecs.decode(StripDataUrl(entry).value).value)
  {
    match StripDataUrl(entry)
    case None => None
    case Some(data) =>
      match codecs.decode(data)
      case None => None
      case Some(bytes) =>
        var name := FileName(codecs.hexDigest(data + stamp), ImageExtension(bytes, codecs.sniff));
        if codecs.save(name, bytes) then Some(name) else None
  }

  /** An entry yields a name only when it has a payload that decodes, and the
      name is the digest prefix of payload and time stamp, a dot and the
      extension sniffed from the decoded bytes; a `data:image/` entry without
      a comma yields none; and an entry whose payload decodes and whose bytes
      are written does yield that name. */
  lemma ProcessEntryName(entry: string, stamp: string, codecs: Codecs)
    ensures StartsWith(entry, DataImagePrefix) && ',' !in entry ==> ProcessEntry(entry, stamp, codecs).None?
    ensures ProcessEntry(entry, stamp, codecs).Some? ==>
      && StripDataUrl(entry).Some?
      && codecs.decode(StripDataUrl(entry).value).Some?
      && var data := StripDataUrl(entry).value;
         var ext := ImageExtension(codecs.decode(data).value, codecs.sniff);
         var name := ProcessEntry(entry, stamp, codecs).value;
         var stem := Take(codecs.hexDigest(data + stamp), HashPrefixLength);
         && StartsWith(name, stem)
         && EndsWith(name, "." + ext)
         && |name| == |stem| + 1 + |ext|
    ensures StripDataUrl(entry).Some? && codecs.decode(StripDataUrl(entry).value).Some? ==>
      var data := StripDataUrl(entry).value;
      var bytes := codecs.decode(data).value;
      var name := FileName(codecs.hexDigest(data + stamp), ImageExtension(bytes, codecs.sniff));
      codecs.save(name, bytes) ==> ProcessEntry(entry, stamp, codecs) == Some(name)
  {
    if ProcessEntry(entry, stamp, codecs).Some? {
      var data := StripDataUrl(entry).value;
      var stem := Take(codecs.hexDigest(data + stamp), HashPrefixLength);
      var name := ProcessEntry(entry, stamp, codecs).value;
      assert name[..|stem|] == stem;
    }
  }

  /** A successful entry contributes its name; a failed one nothing. */
  function Outcome(r: Option<string>): seq<string>
  {
    match r
    case Some(name) => [name]
    case None => []
  }

  /** `process_images(images_data)` with `stamps[i]` the `datetime.now()`
      reading taken for entry `i`: the names of the entries that went
      through, in input order, at most one per entry. */
  function ProcessImages(entries: seq<string>, stamps: seq<string>, codecs: Codecs): (names: seq<string>)
    requires |stamps| == |entries|
    ensures |names| <= |entries|
    decreases |entries|
  {
    if |entries| == 0 then []
    else
      var n := |entries| - 1;
      ProcessImages(entries[..n], stamps[..n], codecs) + Outcome(ProcessEntry(entries[n], stamps[n], codecs))
  }

  /** Every returned name is the name some entry of the batch was stored under. */
  lemma {:induction false} NamesComeFromEntries(entries: seq<string>, stamps: seq<string>, codecs: Codecs)
    requires |stamps| == |entries|
    ensures forall j :: 0 <= j < |ProcessImages(entries, stamps, codecs)| ==>
      exists i :: 0 <= i < |entries| && ProcessEntry(entries[i], stamps[i], codecs) == Some(ProcessImages(entries, stamps, codecs)[j])
    decreases |entries|
  {
    if |entries| > 0 {
      var n := |entries| - 1;
      var prev := ProcessImages(entries[..n], stamps[..n], codecs);
      var names := ProcessImages(entries, stamps, codecs);
      NamesComeFromEntries(entries[..n], stamps[..n], codecs);
      assert names == prev + Outcome(ProcessEntry(entries[n], stamps[n], codecs));
      forall j | 0 <= j < |names|
        ensures exists i :: 0 <= i < |entries| && ProcessEntry(entries[i], stamps[i], codecs) == Some(names[j])
      {
        if j < |prev| {
          var i :| 0 <= i < n && ProcessEntry(entries[..n][i], stamps[..n][i], codecs) == Some(prev[j]);
          assert entries[..n][i] == entries[i] && stamps[..n][i] == stamps[i];
          assert names[j] == prev[j];
        } else {
          assert ProcessEntry(entries[n], stamps[n], codecs) == Some(names[j]);
          assert 0 <= n < |entries|;
        }
      }
    } else {
      assert ProcessImages(entries, stamps, codecs) == [];
    }
  }

  /** Processing a batch in two parts gives the two parts' results in order:
      what happens to one entry never depends on, nor stops, another. */
  lemma ProcessImagesSnoc(entries: seq<string>, stamps: seq<string>, e: string, s: string, codecs: Codecs)
    requires |stamps| == |entries|
    ensures ProcessImages(entries + [e], stamps + [s], codecs)
         == ProcessImages(entries, stamps, codecs) + Outcome(ProcessEntry(e, s, codecs))
  {
    var es, ss := entries + [e], stamps + [s];
    assert es[..|entries|] == entries && ss[..|entries|] == stamps;
  }

  lemma {:induction false} ProcessImagesAppend(a: seq<string>, sa: seq<string>, b: seq<string>, sb: seq<string>, codecs: Codecs)
    requires |sa| == |a| && |sb| == |b|
    ensures ProcessImages(a + b, sa + sb, codecs) == ProcessImages(a, sa, codecs) + ProcessImages(b, sb, codecs)
    decreases |b|
  {
    if |b| == 0 {
      assert a + b == a && sa + sb == sa;
    } else {
      var n := |b| - 1;
      var b0, sb0 := b[..n], sb[..n];
      assert b == b0 + [b[n]] && sb == sb0 + [sb[n]];
      assert a + b == (a + b0) + [b[n]] && sa + sb == (sa + sb0) + [sb[n]];
      ProcessImagesSnoc(a + b0, sa + sb0, b[n], sb[n], codecs);
      ProcessImagesSnoc(b0, sb0, b[n], sb[n], codecs);
      ProcessImagesAppend(a, sa, b0, sb0, codecs);
    }
  }

  /** An entry that fails contributes nothing: the result is that of the batch without it. */
  lemma SkipFailedEntry(entries: seq<string>, stamps: seq<string>, i: nat, codecs: Codecs)
    requires |stamps| == |entries| && i < |entries|
    requires ProcessEntry(entries[i], stamps[i], codecs).None?
    ensures ProcessImages(entries, stamps, codecs)
         == ProcessImages(entries[..i] + entries[i + 1..], stamps[..i] + stamps[i + 1..], codecs)
  {
    var e0, s0 := entries[..i], stamps[..i];
    var e1, s1 := entries[i + 1..], stamps[i + 1..];
    var head, sHead := entries[..i + 1], stamps[..i + 1];
    assert entries == head + e1 && stamps == sHead + s1;
    ProcessImagesAppend(head, sHead, e1, s1, codecs);
    assert head[..i] == e0 && sHead[..i] == s0;
    assert ProcessImages(head, sHead, codecs) == ProcessImages(e0, s0, codecs);
    ProcessImagesAppend(e0, s0, e1, s1, codecs);
  }

  /** When every entry goes through, each gives its own name, in order. */
  lemma {:induction false} AllEntriesSucceed(entries: seq<string>, stamps: seq<string>, codecs: Codecs)
    requires |stamps| == |entries|
    requires forall i :: 0 <= i < |entries| ==> ProcessEntry(entries[i], stamps[i], codecs).Some?
    ensures |ProcessImages(entries, stamps, codecs)| == |entries|
    ensures forall i :: 0 <= i < |entries| ==>
      ProcessImages(entries, stamps, codecs)[i] == ProcessEntry(entries[i], stamps[i], codecs).value
    decreases |entries|
  {
    if |entries| > 0 {
      var n := |entries| - 1;
      forall i | 0 <= i < n
        ensures ProcessEntry(entries[..n][i], stamps[..n][i], codecs).Some?
      {
        assert entries[..n][i] == entries[i] && stamps[..n][i] == stamps[i];
      }
      AllEntriesSucceed(entries[..n], stamps[..n], codecs);
    }
  }

  /** Three entries of which the middle one fails give exactly the first and
      the third names, in that order. */
  lemma MiddleEntryFails(e: seq<string>, s: seq<string>, codecs: Codecs)
    requires |e| == 3 && |s| == 3
    requires ProcessEntry(e[0], s[0], codecs).Some?
    requires ProcessEntry(e[1], s[1], codecs).None?
    requires ProcessEntry(e[2], s[2], codecs).Some?
    ensures ProcessImages(e, s, codecs)
         == [ProcessEntry(e[0], s[0], codecs).value, ProcessEntry(e[2], s[2], codecs).value]
  {
    var n0 := ProcessEntry(e[0], s[0], codecs).value;
    assert e[..1][..0] == [] && s[..1][..0] == [];
    assert ProcessImages(e[..1], s[..1], codecs) == [n0];
    assert e[..2][..1] == e[..1] && s[..2][..1] == s[..1];
    assert ProcessImages(e[..2], s[..2], codecs) == [n0];
    assert e[..2] == e[..|e| - 1] && s[..2] == s[..|s| - 1];
  }
}
