/** The upload validator of the first wizard step (pages/AutoML.tsx:65-83):
    a size check, then an extension check on the file name. */
module Upload {
  import opened Wrappers

  /** The parts of a browser `File` the validator looks at. */
  datatype File = File(name: string, size: nat)

  /** The two messages the validator can show. */
  datatype UploadError = EmptyFile | UnsupportedFormat

  /** The accepted extensions, already lower-case. */
  const Formats: seq<string> := ["csv", "xlsx", "xls"]

  /** Joins the parts with the separator between consecutive parts. */
  function Join(parts: seq<string>, sep: char): string
  {
    if |parts| == 0 then ""
    else if |parts| == 1 then parts[0]
    else parts[0] + [sep] + Join(parts[1..], sep)
  }

  /** `String.prototype.split` on a one-character separator: at least one
      part, no part contains the separator, and joining them back gives the
      original string. */
  function Split(s: string, sep: char): (parts: seq<string>)
    ensures |parts| >= 1
    ensures Join(parts, sep) == s
    ensures forall i :: 0 <= i < |parts| ==> sep !in parts[i]
  {
    if |s| == 0 then [""]
    else
      var rest := Split(s[1..], sep);
      if s[0] == sep then
        assert [sep] + s[1..] == s;
        [""] + rest
      else
        var parts := [[s[0]] + rest[0]] + rest[1..];
        assert parts[1..] == rest[1..];
        assert [s[0]] + s[1..] == s;
        parts
  }

  /** ASCII lower-casing of one character. */
  function LowerChar(c: char): char
  {
    if 'A' <= c <= 'Z' then (c as int + 32) as char else c
  }

  function ToLower(s: string): (r: string)
    ensures |r| == |s|
  {
    seq(|s|, i requires 0 <= i < |s| => LowerChar(s[i]))
  }

  /** `name.split('.').pop()`: the text after the last dot, or the whole
      name when it has no dot. */
  function Extension(name: string): (ext: string)
    ensures |ext| <= |name| && name[|name| - |ext|..] == ext
    ensures '.' !in ext
    ensures |ext| == |name| || name[|name| - |ext| - 1] == '.'
  {
    var parts := Split(name, '.');
    JoinEndsWithLast(parts, '.');
    parts[|parts| - 1]
  }

  /** The format test: the lower-cased extension is one of csv, xlsx, xls. */
  predicate IsSupported(name: string)
  {
    ToLower(Extension(name)) in Formats
  }

  /** The validator: `None` accepts the file, `Some(e)` rejects it with `e`.
      An empty file is rejected as empty before its name is looked at; a
      file is accepted exactly when it is non-empty and the lower-cased text
      after the last dot of its name (the whole name if it has none) is csv,
      xlsx or xls; every other rejection is for the format. */
  function Check(f: File): (r: Option<UploadError>)
    ensures f.size == 0 ==> r == Some(EmptyFile)
    ensures r == None <==>
      f.size > 0 && exists k: nat :: StartsLastPart(f.name, k) && ToLower(f.name[k..]) in Formats
    ensures f.size > 0 && r.Some? ==> r == Some(UnsupportedFormat)
  {
    SupportedIff(f.name);
    if f.size == 0 then Some(EmptyFile)
    else if !IsSupported(f.name) then Some(UnsupportedFormat)
    else None
  }

  /** `k` starts the text that follows the last dot of `name` (or is 0 when
      there is no dot at all). */
  predicate StartsLastPart(name: string, k: nat)
  {
    k <= |name| && (k == 0 || name[k - 1] == '.') && '.' !in name[k..]
  }

  /** The last part of a join is a suffix of it, preceded by the separator
      when there is more than one part. */
  lemma {:induction false} JoinEndsWithLast(parts: seq<string>, sep: char)
    requires |parts| >= 1
    ensures var j := Join(parts, sep); var last := parts[|parts| - 1];
      |last| <= |j| && j[|j| - |last|..] == last
      && (|parts| == 1 <==> |last| == |j|)
      && (|parts| > 1 ==> j[|j| - |last| - 1] == sep)
  {
    if |parts| > 1 {
      JoinEndsWithLast(parts[1..], sep);
      var j := Join(parts, sep);
      var t := Join(parts[1..], sep);
      assert j == parts[0] + [sep] + t;
      assert parts[1..][|parts[1..]| - 1] == parts[|parts| - 1];
    }
  }

  /** The text after the last dot starts at one position only, so the
      extension is the unique suffix that `StartsLastPart` describes. */
  lemma LastPartUnique(name: string)
    ensures StartsLastPart(name, |name| - |Extension(name)|)
    ensures forall k: nat :: StartsLastPart(name, k) ==> k == |name| - |Extension(name)|
  {
  }

  /** A name passes the format test exactly when the lower-cased text after
      its last dot (the whole name, if it has none) is csv, xlsx or xls. */
  lemma SupportedIff(name: string)
    ensures IsSupported(name) <==>
      exists k: nat :: StartsLastPart(name, k) && ToLower(name[k..]) in Formats
  {
    LastPartUnique(name);
  }

  /** A file literally named "CSV" passes: with no dot, the whole name is
      taken as the extension, and case does not matter. */
  lemma BareNameCsvAccepted()
    ensures IsSupported("CSV")
  {
    LastPartAt("CSV", 0);
    assert ToLower("CSV") == "csv";
  }

  /** Whatever precedes the last dot is ignored: a name `stem.ext` whose
      `ext` has no dot passes exactly when `ext` lower-cases to a supported
      format, even when `stem` itself ends in ".csv". */
  lemma LastDotDecides(stem: string, ext: string)
    requires '.' !in ext
    ensures Extension(stem + "." + ext) == ext
    ensures IsSupported(stem + "." + ext) <==> ToLower(ext) in Formats
  {
    var name := stem + "." + ext;
    assert name[|stem| + 1..] == ext;
    assert name[|stem|] == '.';
    LastPartAt(name, |stem| + 1);
  }

  /** A name ending in a dot has an empty extension and fails. */
  lemma TrailingDotRejected(stem: string)
    ensures !IsSupported(stem + ".")
  {
    LastDotDecides(stem, "");
  }

  /** Pinning the extension down by naming where the last part starts. */
  lemma LastPartAt(name: string, k: nat)
    requires StartsLastPart(name, k)
    ensures Extension(name) == name[k..]
  {
    LastPartUnique(name);
  }
}
