/** The file-format handling of session.go: the `Format` enumeration and
    its names, the list adapter over the formats, the guess of a format
    from a file name, and the checks `decodeFile` and `EncodeFile` make
    before touching the file system. Opening, reading and writing files and
    the codecs themselves are not modelled; paths use '/' as separator.
 */
module Session {
  import opened Wrappers

  /** `type Format byte`. */
  newtype Format = b: int | 0 <= b < 256

  const FormatNone: Format := 0
  const FormatRBXL: Format := 1
  const FormatRBXM: Format := 2
  const FormatRBXLX: Format := 3
  const FormatRBXMX: Format := 4
  const FormatJSON: Format := 5

  /** The formats with a name and a codec. */
  predicate Known(f: Format)
  {
    FormatRBXL <= f <= FormatJSON
  }

  /** `Format.String`. */
  function Name(f: Format): (r: string)
    ensures r == "" <==> !Known(f)
  {
    if f == FormatRBXL then "rbxl"
    else if f == FormatRBXM then "rbxm"
    else if f == FormatRBXLX then "rbxlx"
    else if f == FormatRBXMX then "rbxmx"
    else if f == FormatJSON then "json"
    else ""
  }

  /** `strings.ToLower`, restricted to ASCII letters. No other character
      lower-cases to a letter of the five format names, so the restriction
      does not change which strings `FormatFromString` recognises. */
  function Lower(s: string): (r: string)
    ensures |r| == |s|
    ensures forall i :: 0 <= i < |s| ==> r[i] == if 'A' <= s[i] <= 'Z' then (s[i] as int + 32) as char else s[i]
  {
    seq(|s|, i requires 0 <= i < |s| => if 'A' <= s[i] <= 'Z' then (s[i] as int + 32) as char else s[i])
  }

  /** `FormatFromString`: the lower-cased string matched against the names. */
  function FormatFromString(s: string): (r: Format)
    ensures r == FormatNone || Known(r)
    ensures Known(r) ==> Name(r) == Lower(s)
  {
    var t := Lower(s);
    if t == "rbxl" then FormatRBXL
    else if t == "rbxm" then FormatRBXM
    else if t == "rbxlx" then FormatRBXLX
    else if t == "rbxmx" then FormatRBXMX
    else if t == "json" then FormatJSON
    else FormatNone
  }

  /** Naming a format and reading the name back gives the same format, for
      `FormatNone` (named "") and the five known formats. */
  lemma NameRoundTrip(f: Format)
    requires f <= FormatJSON
    ensures FormatFromString(Name(f)) == f
  {
    var n := Name(f);
    assert Lower(n) == n;
  }

  /** In the other direction, a recognised string is the name of its format
      up to letter case, and any other string, "" included, gives `FormatNone`. */
  lemma FromStringInverse(s: string)
    ensures var f := FormatFromString(s);
            && (f == FormatNone || Known(f))
            && (Known(f) ==> Lower(s) == Name(f))
            && (f == FormatNone <==> Lower(s) !in {"rbxl", "rbxm", "rbxlx", "rbxmx", "json"})
  {
  }

  /** Matching ignores letter case. */
  lemma FromStringIgnoresCase(s: string)
    ensures FormatFromString(s) == FormatFromString(Lower(s))
    ensures FormatFromString("RBXL") == FormatRBXL && FormatFromString("Json") == FormatJSON
  {
    var t := Lower(s);
    assert Lower(t) == t;
    assert Lower("RBXL") == "rbxl";
    assert Lower("Json") == "json";
  }

  // ---------------------------------------------------------------------
  // The list adapter over the formats

  function AdapterCount(): int { 6 }

  /** `ItemAt(index)` converts with `Format(index)`, which keeps the low 8 bits. */
  function ItemAt(index: int): (r: Format)
    ensures 0 <= index < 256 ==> r as int == index
  {
    (index % 256) as Format
  }

  /** `ItemIndex(item)`: the position whose `ItemAt` is the item. */
  function ItemIndex(item: Format): (r: int)
    ensures 0 <= r < 256 && ItemAt(r) == item
  {
    item as int
  }

  /** Every position of the adapter maps to a format and back to itself,
      and the positions are exactly `FormatNone` through `FormatJSON`. */
  lemma AdapterRoundTrip(i: int)
    requires 0 <= i < AdapterCount()
    ensures ItemIndex(ItemAt(i)) == i
    ensures ItemAt(i) <= FormatJSON && (i > 0 <==> Known(ItemAt(i)))
  {
  }

  // ---------------------------------------------------------------------
  // File names

  const Separator: char := '/'

  /** `filepath.Ext`: the suffix from the last '.' of the final path
      element, or "" when that element has no '.'. */
  function Ext(path: string): (r: string)
    ensures r == "" || (r[0] == '.' && |r| <= |path| && path[|path| - |r|..] == r)
    ensures forall j :: 0 < j < |r| ==> r[j] != '.' && r[j] != Separator
    ensures r == "" ==> forall j :: 0 <= j < |path| && path[j] == '.' ==>
              exists k :: j < k < |path| && path[k] == Separator
    decreases |path|
  {
    if |path| == 0 then ""
    else
      var c := path[|path| - 1];
      var p := path[..|path| - 1];
      if c == Separator then ""
      else if c == '.' then "."
      else
        var e := Ext(p);
        if e == "" then "" else e + [c]
  }

  /** The guess of `decodeFile` as written: the extension without its dot,
      when it names a known format, replaces the session's format. Slicing
      `[1:]` off an empty extension panics. */
  function GuessFormatAsWritten(file: string, current: Format): (r: Result<Format>)
    ensures r.Fail? <==> Ext(file) == ""
    ensures r.Ok? ==> r.value == GuessFormat(file, current)
  {
    var ext := Ext(file);
    if |ext| < 1 then Fail(Panic("slice bounds out of range [1:0]"))
    else
      var f := FormatFromString(ext[1..]);
      Ok(if f != FormatNone then f else current)
  }

  /** The guess as the comment beside it describes it: the extension decides
      when it names a known format, and otherwise the given format is used,
      including for a file name without an extension. */
  function GuessFormat(file: string, current: Format): (r: Format)
    ensures r == current || Known(r)
    ensures Ext(file) == "" ==> r == current
    ensures Ext(file) != "" && Known(FormatFromString(Ext(file)[1..])) ==> Name(r) == Lower(Ext(file)[1..])
    ensures Ext(file) != "" && !Known(FormatFromString(Ext(file)[1..])) ==> r == current
    ensures r != current ==> Ext(file) != "" && r == FormatFromString(Ext(file)[1..])
  {
    var ext := Ext(file);
    if |ext| < 1 then current
    else
      var f := FormatFromString(ext[1..]);
      FromStringInverse(ext[1..]);
      if f != FormatNone then f else current
  }

  /** The discrepancy: an existing file named without an extension makes the
      guess panic, where the given format should have been used. */
  lemma ExtensionlessFilePanics()
    ensures GuessFormatAsWritten("/tmp/place", FormatRBXL).Fail?
    ensures GuessFormat("/tmp/place", FormatRBXL) == FormatRBXL
  {
    assert Ext("/tmp/place") == "";
  }

  /** The codec each known format is read and written with. */
  datatype Codec = BinaryPlace | BinaryModel | Xml | Json

  function CodecFor(f: Format): (r: Option<Codec>)
    ensures r.Some? <==> Known(f)
  {
    if f == FormatRBXL then Some(BinaryPlace)
    else if f == FormatRBXM then Some(BinaryModel)
    else if f == FormatRBXLX || f == FormatRBXMX then Some(Xml)
    else if f == FormatJSON then Some(Json)
    else None
  }

  /** What `decodeFile` decides before decoding: with no file nothing is
      done; otherwise the session's format becomes the guessed one, and a
      format without a codec is an "unknown format" error. */
  datatype DecodePlan = NoFile | DecodeWith(format: Format, codec: Codec)

  function PlanDecode(file: string, current: Format): (r: Result<DecodePlan>)
    ensures file == "" <==> r == Ok(NoFile)
    ensures r.Fail? ==> r.fault == Error("unknown format") && !Known(GuessFormat(file, current))
    ensures r.Ok? && r.value.DecodeWith? ==>
              && r.value.format == GuessFormat(file, current) && Known(r.value.format)
              && (Ext(file) != "" && Known(FormatFromString(Ext(file)[1..])) ==>
                    r.value.format == FormatFromString(Ext(file)[1..]))
  {
    if file == "" then Ok(NoFile)
    else
      var f := GuessFormat(file, current);
      match CodecFor(f)
      case Some(c) => Ok(DecodeWith(f, c))
      case None => Fail(Error("unknown format"))
  }

  /** `decodeFile` as written: the same plan, except that an existing file
      named without an extension panics in the guess. */
  function PlanDecodeAsWritten(file: string, current: Format): (r: Result<DecodePlan>)
    ensures r == Fail(Panic("slice bounds out of range [1:0]")) <==> file != "" && Ext(file) == ""
    ensures !(file != "" && Ext(file) == "") ==> r == PlanDecode(file, current)
  {
    if file == "" then Ok(NoFile)
    else
      match GuessFormatAsWritten(file, current)
      case Fail(e) => Fail(e)
      case Ok(f) =>
        match CodecFor(f)
        case Some(c) => Ok(DecodeWith(f, c))
        case None => Fail(Error("unknown format"))
  }

  /** For "/tmp/place" the code as written panics, while the corrected plan
      decodes with the given format. */
  lemma ExtensionlessDecodePanics()
    ensures PlanDecodeAsWritten("/tmp/place", FormatRBXL).Fail?
    ensures PlanDecode("/tmp/place", FormatRBXL) == Ok(DecodeWith(FormatRBXL, BinaryPlace))
  {
    assert Ext("/tmp/place") == "";
  }

  /** The checks `EncodeFile` makes before creating the file: a missing file
      name is reported before a missing format. */
  function EncodePreflight(file: string, format: Format): (r: Result<Format>)
    ensures r.Ok? <==> file != "" && format != FormatNone
    ensures file == "" ==> r == Fail(Error("no file"))
    ensures file != "" && format == FormatNone ==> r == Fail(Error("no format"))
    ensures r.Ok? ==> r.value == format
  {
    if file == "" then Fail(Error("no file"))
    else if format == FormatNone then Fail(Error("no format"))
    else Ok(format)
  }
}
