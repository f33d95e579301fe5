/** Naming of converted files: the original name loses its extension (the
    regular expression `\.[^/.]+$`) and gains the one of the output format;
    a file without a name is called `audio_<index>`. */
module FileNames {
  import opened Options
  import Decimal

  /** Output formats offered by the converter. */
  datatype Format = Mp3 | Wav {

    function Extension(): (ext: string)
      ensures |ext| > 0
      ensures forall j :: 0 <= j < |ext| ==> ext[j] != '.' && ext[j] != '/'
    {
      match this
      case Mp3 => "mp3"
      case Wav => "wav"
    }
  }

  /** The characters `[^/.]` admits after the dot of an extension. */
  predicate ExtensionChar(c: char) {
    c != '.' && c != '/'
  }

  /** `s[k..]` is what `\.[^/.]+$` matches: a dot, then one or more
      characters up to the end, none of them a dot or a slash. */
  ghost predicate ExtensionAt(s: string, k: int) {
    && 0 <= k
    && k + 1 < |s|
    && s[k] == '.'
    && forall j :: k < j < |s| ==> ExtensionChar(s[j])
  }

  /** A name has at most one place where the pattern matches. */
  lemma ExtensionUnique(s: string, k1: int, k2: int)
    requires ExtensionAt(s, k1) && ExtensionAt(s, k2)
    ensures k1 == k2
  {
  }

  /** Scans leftwards from `j`, every character right of `j` being an
      extension character. */
  function ScanForDot(s: string, j: int): (r: Option<nat>)
    requires -1 <= j < |s|
    requires forall m :: j < m < |s| ==> ExtensionChar(s[m])
    ensures r.Some? ==> ExtensionAt(s, r.value)
    ensures r.None? ==> forall k :: k <= j ==> !ExtensionAt(s, k)
    decreases j + 1
  {
    if j < 0 then None
    else if s[j] == '/' then None
    else if s[j] == '.' then (if j + 1 < |s| then Some(j) else None)
    else ScanForDot(s, j - 1)
  }

  /** Where the extension of `s` starts, if it has one. */
  function FindExtension(s: string): (r: Option<nat>)
    ensures r.Some? <==> exists k :: ExtensionAt(s, k)
    ensures r.Some? ==> ExtensionAt(s, r.value)
  {
    ScanForDot(s, |s| - 1)
  }

  /** `name.replace(/\.[^/.]+$/, '')`. */
  function StripExtension(s: string): (r: string)
    ensures r <= s
    ensures r == s <==> forall k :: !ExtensionAt(s, k)
    ensures r != s ==> ExtensionAt(s, |r|)
  {
    match FindExtension(s)
    case Some(k) => s[..k]
    case None => s
  }

  /** A name that does not end in an extension is left as it is. */
  lemma StripWithoutExtension(s: string)
    requires forall j :: 0 <= j < |s| ==> s[j] != '.'
    ensures StripExtension(s) == s
  {
  }

  /** A name that does end in an extension loses exactly that extension. */
  lemma StripAtMatch(s: string)
    ensures forall k :: ExtensionAt(s, k) ==> StripExtension(s) == s[..k]
  {
    forall k | ExtensionAt(s, k)
      ensures StripExtension(s) == s[..k]
    {
      ExtensionUnique(s, k, |StripExtension(s)|);
    }
  }

  /** `fileName || "audio_" + index`: a non-empty name is kept; an
      empty one (falsy) is replaced by "audio_" and the index in decimal. */
  function OriginalName(fileName: string, index: nat): (r: string)
    ensures |r| > 0
    ensures fileName != "" ==> r == fileName
    ensures fileName == "" ==>
      && |r| > 6 && r[..6] == "audio_"
      && Decimal.AllDigits(r[6..]) && Decimal.ParseNat(r[6..]) == index
  {
    if fileName == "" then
      var d := Decimal.NatToString(index);
      assert ("audio_" + d)[6..] == d;
      Decimal.ParseNatToString(index);
      "audio_" + d
    else fileName
  }

  /** The name of the converted file: the original name with its matched
      extension, if any, replaced by a dot and the format's extension. */
  function OutputName(fileName: string, index: nat, format: Format): (r: string)
    ensures var orig := OriginalName(fileName, index);
      (forall k :: !ExtensionAt(orig, k)) ==> r == orig + "." + format.Extension()
    ensures var orig := OriginalName(fileName, index);
      forall k :: ExtensionAt(orig, k) ==> r == orig[..k] + "." + format.Extension()
  {
    var orig := OriginalName(fileName, index);
    StripAtMatch(orig);
    StripExtension(orig) + "." + format.Extension()
  }

  /** The output name ends in the format's extension, and stripping that
      extension gives back the base name. */
  lemma {:induction false} OutputNameRoundTrip(fileName: string, index: nat, format: Format)
    ensures var r := OutputName(fileName, index, format);
      var base := StripExtension(OriginalName(fileName, index));
      && FindExtension(r) == Some(|base|)
      && StripExtension(r) == base
  {
    var r := OutputName(fileName, index, format);
    var base := StripExtension(OriginalName(fileName, index));
    var ext := format.Extension();
    assert ExtensionAt(r, |base|);
    var k := FindExtension(r).value;
    ExtensionUnique(r, k, |base|);
  }

  /** A file without a name keeps the whole fallback `audio_<index>` as its
      base name, so distinct files get distinct fallback names. */
  lemma FallbackName(index: nat, format: Format)
    ensures OutputName("", index, format) == "audio_" + Decimal.NatToString(index) + "." + format.Extension()
  {
    var s := "audio_" + Decimal.NatToString(index);
    StripWithoutExtension(s);
  }

  lemma FallbackNamesInjective(i: nat, j: nat, format: Format)
    requires OutputName("", i, format) == OutputName("", j, format)
    ensures i == j
  {
    FallbackName(i, format);
    FallbackName(j, format);
    var di, dj := Decimal.NatToString(i), Decimal.NatToString(j);
    var a, b := "audio_" + di + "." + format.Extension(), "audio_" + dj + "." + format.Extension();
    assert a == b;
    assert |di| == |dj|;
    DigitsOfFallback(di, format.Extension());
    DigitsOfFallback(dj, format.Extension());
    Decimal.NatToStringInjective(i, j);
  }

  /** The digits sit right after the `audio_` prefix. */
  lemma DigitsOfFallback(d: string, ext: string)
    ensures ("audio_" + d + "." + ext)[6 .. 6 + |d|] == d
  {
    var a := "audio_" + d;
    assert ("audio_" + d + "." + ext)[..|a|] == a;
  }
}
