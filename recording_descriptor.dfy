/**
 The recording descriptor reader of the standalone converter: a line-oriented
 scan of a small JSON file that fills a `RecordingInfo`. It is not a JSON
 parser: each line is matched against seven quoted keys, and the value is cut
 out of the line by searching for quotes, a colon and a comma.

 The file is given as its sequence of lines (what `std::getline` yields, the
 newline removed), or `None` when it cannot be opened. `std::stod` and the
 casts of its result to `uint32_t`/`uint64_t` are a `NumberConversion`
 supplied by the caller and otherwise left uninterpreted.
 */
module RecordingDescriptor {
  import opened Wrappers
  import opened StdString

  /** What the converter learns from a descriptor. */
  datatype RecordingInfo = RecordingInfo(
    rawFile: string,
    h264File: string,
    mp4File: string,
    width: nat,
    height: nat,
    fps: real,
    frameCount: nat,
    valid: bool)

  /** The value of a freshly constructed `RecordingInfo`. */
  const Initial := RecordingInfo("", "", "", 0, 0, 0.0, 0, false)

  /** Values of `uint32_t` and `uint64_t`. */
  type U32Value = x: int | 0 <= x < 0x1_0000_0000
  type U64Value = x: int | 0 <= x < 0x1_0000_0000_0000_0000

  /** `std::stod` (with its exception mapped to 0, as the caller's catch does)
      and the two narrowing casts of a `double`. */
  datatype NumberConversion = NumberConversion(
    stod: string -> real,
    toU32: real -> U32Value,
    toU64: real -> U64Value)

  /** The casts send 0.0 to 0, as `static_cast` does. */
  predicate CastsKeepZero(conv: NumberConversion)
  {
    conv.toU32(0.0) == 0 && conv.toU64(0.0) == 0
  }

  // ---------------------------------------------------------------------------
  // extract_json_string

  const Quote: char := '"'

  /** The text between the second and the third double quote of `line`, or ""
      when the line has fewer than three. For a line `"key": "value"` this is
      the separator `": "`, not the value. */
  function ExtractJsonString(line: string): (r: string)
    ensures Quote !in r
    ensures r != "" ==> exists a: nat :: a <= |line| && OccursAt(line, r, a)
  {
    match Find(line, Quote, 0)
    case None => ""
    case Some(first) =>
      match Find(line, Quote, first + 1)
      case None => ""
      case Some(second) =>
        match Find(line, Quote, second + 1)
        case None => ""
        case Some(end) =>
          var r := line[second + 1..end];
          assert OccursAt(line, r, second + 1);
          r
  }

  /** Stated through the list of quote positions: fewer than three quotes give
      "", otherwise the text strictly between the second and the third. */
  lemma ExtractJsonStringBetweenQuotes(line: string)
    ensures var qs := Positions(line, Quote, 0);
      if |qs| < 3 then ExtractJsonString(line) == ""
      else qs[1] < qs[2] <= |line| && ExtractJsonString(line) == line[qs[1] + 1..qs[2]]
  {
    var qs := Positions(line, Quote, 0);
    FindIsFirstPosition(line, Quote, 0);
    match Find(line, Quote, 0)
    case None =>
    case Some(first) =>
      FindIsFirstPosition(line, Quote, first + 1);
      match Find(line, Quote, first + 1)
      case None =>
        assert |qs| == 1;
      case Some(second) =>
        FindIsFirstPosition(line, Quote, second + 1);
        var rest2 := Positions(line, Quote, second + 1);
        assert qs == [first] + ([second] + rest2);
        match Find(line, Quote, second + 1)
        case None =>
          assert |qs| == 2;
        case Some(end) =>
          assert qs[1] == second && qs[2] == end;
  }

  /** Where the quotes of `<indent>"<key>"<sep>"<rest>` are: at the three
      positions after `indent`, `key` and `sep`, and nowhere before the
      third. */
  lemma KeyValueLayout(indent: string, key: string, sep: string, rest: string)
    requires Quote !in indent && Quote !in key && Quote !in sep
    ensures var line := indent + [Quote] + key + [Quote] + sep + [Quote] + rest;
      var first, second := |indent|, |indent| + 1 + |key|;
      var end := second + 1 + |sep|;
      end < |line| && line[first] == Quote && line[second] == Quote && line[end] == Quote &&
      line[second + 1..end] == sep &&
      forall i :: 0 <= i < end && i != first && i != second ==> line[i] != Quote
  {
    var head := indent + [Quote] + key + [Quote] + sep;
    var line := head + [Quote] + rest;
    var first, second := |indent|, |indent| + 1 + |key|;
    var end := second + 1 + |sep|;
    assert line[..end] == head;
    assert head[second + 1..end] == sep;
    forall i | 0 <= i < end && i != first && i != second
      ensures line[i] != Quote
    {
      if i < first {
        assert line[i] == indent[i];
      } else if i < second {
        assert line[i] == key[i - first - 1];
      } else {
        assert line[i] == sep[i - second - 1];
      }
    }
  }

  /** Quotes at `first`, `second` and `end` and none elsewhere before `end`:
      the text strictly between the last two is extracted. */
  lemma ExtractJsonStringAt(line: string, first: nat, second: nat, end: nat)
    requires first < second < end < |line|
    requires line[first] == Quote && line[second] == Quote && line[end] == Quote
    requires forall i :: 0 <= i < end && i != first && i != second ==> line[i] != Quote
    ensures ExtractJsonString(line) == line[second + 1..end]
  {
    FindReaches(line, Quote, 0, first);
    FindReaches(line, Quote, first + 1, second);
    FindReaches(line, Quote, second + 1, end);
  }

  /** The descriptor's own layout, `<indent>"<key>"<sep>"<value...`: the
      key's closing quote and the value's opening quote enclose the
      separator, and that is what is extracted. For the line
      `  "raw_file": "capture.raw",` the result is `: `, not `capture.raw`. */
  lemma ExtractJsonStringOnKeyValueLine(indent: string, key: string, sep: string, rest: string)
    requires Quote !in indent && Quote !in key && Quote !in sep
    ensures ExtractJsonString(indent + [Quote] + key + [Quote] + sep + [Quote] + rest) == sep
  {
    var line := indent + [Quote] + key + [Quote] + sep + [Quote] + rest;
    var second := |indent| + 1 + |key|;
    KeyValueLayout(indent, key, sep, rest);
    ExtractJsonStringAt(line, |indent|, second, second + 1 + |sep|);
  }

  // ---------------------------------------------------------------------------
  // extract_json_number, up to the call of std::stod

  /** Characters removed from the front of the value text. */
  const LeadingStrip: set<char> := {' ', '\t', '"'}

  /** Characters removed from the back of the value text. */
  const TrailingStrip: set<char> := {' ', '\t', '"', ',', '\n', '\r'}

  /** The text after the first `:`, cut before the first `,` that follows. */
  function ValueSegment(line: string): (r: Option<string>)
    ensures r.None? <==> ':' !in line
    ensures r.Some? ==> ',' !in r.value
    ensures r.Some? ==>
      (exists c :: 0 <= c < |line| && line[c] == ':' &&
        (forall i :: 0 <= i < c ==> line[i] != ':') &&
        c + 1 + |r.value| <= |line| && line[c + 1..c + 1 + |r.value|] == r.value &&
        (c + 1 + |r.value| == |line| || line[c + 1 + |r.value|] == ','))
  {
    match Find(line, ':', 0)
    case None => None
    case Some(colon) =>
      var valuePart := line[colon + 1..];
      match Find(valuePart, ',', 0)
      case None =>
        assert line[colon + 1..colon + 1 + |valuePart|] == valuePart;
        Some(valuePart)
      case Some(comma) =>
        assert line[colon + 1..colon + 1 + comma] == valuePart[..comma];
        assert line[colon + 1 + comma] == valuePart[comma];
        Some(valuePart[..comma])
  }

  /** `s.erase(0, s.find_first_not_of(" \t\""))`; erasing up to `npos`
      clears the string. */
  function EraseLeading(s: string): (r: string)
    ensures |r| <= |s| && r == s[|s| - |r|..]
    ensures forall i :: 0 <= i < |s| - |r| ==> s[i] in LeadingStrip
    ensures r != "" ==> r[0] !in LeadingStrip
  {
    match FindFirstNotOf(s, LeadingStrip, 0)
    case None => ""
    case Some(p) => s[p..]
  }

  /** `s.erase(s.find_last_not_of(" \t\",\n\r") + 1)`; `npos + 1` wraps to 0
      and clears the string. */
  function EraseTrailing(s: string): (r: string)
    ensures |r| <= |s| && r == s[..|r|]
    ensures forall i :: |r| <= i < |s| ==> s[i] in TrailingStrip
    ensures r != "" ==> r[|r| - 1] !in TrailingStrip
  {
    match FindLastNotOf(s, TrailingStrip, |s|)
    case None => ""
    case Some(q) => s[..q + 1]
  }

  /** The text handed to `std::stod`, or `None` when the line has no colon
      (the function then returns 0 without converting). */
  function NumberText(line: string): (r: Option<string>)
    ensures r.None? <==> ':' !in line
    ensures r.Some? && r.value != "" ==> r.value[0] !in LeadingStrip && r.value[|r.value| - 1] !in TrailingStrip
  {
    match ValueSegment(line)
    case None => None
    case Some(segment) => Some(EraseTrailing(EraseLeading(segment)))
  }

  /** `extract_json_number`. */
  function ExtractJsonNumber(line: string, stod: string -> real): (r: real)
    ensures ':' !in line ==> r == 0.0
    ensures ':' in line ==> r == stod(NumberText(line).value)
  {
    match NumberText(line)
    case None => 0.0
    case Some(text) => stod(text)
  }

  /** Reference definition: drop every leading character that is in `cs`. */
  function DropLeading(s: string, cs: set<char>): string
  {
    if s != [] && s[0] in cs then DropLeading(s[1..], cs) else s
  }

  /** Reference definition: drop every trailing character that is in `cs`. */
  function DropTrailing(s: string, cs: set<char>): string
  {
    if s != [] && s[|s| - 1] in cs then DropTrailing(s[..|s| - 1], cs) else s
  }

  lemma {:induction false} FindFirstNotOfDrops(s: string, cs: set<char>, from: nat)
    requires from <= |s|
    decreases |s| - from
    ensures DropLeading(s[from..], cs) ==
      (match FindFirstNotOf(s, cs, from) case None => "" case Some(p) => s[p..])
  {
    if from < |s| && s[from] in cs {
      assert s[from..][1..] == s[from + 1..];
      FindFirstNotOfDrops(s, cs, from + 1);
    }
  }

  lemma {:induction false} FindLastNotOfDrops(s: string, cs: set<char>, n: nat)
    requires n <= |s|
    ensures DropTrailing(s[..n], cs) ==
      (match FindLastNotOf(s, cs, n) case None => "" case Some(q) => s[..q + 1])
  {
    if n > 0 && s[n - 1] in cs {
      assert s[..n][..n - 1] == s[..n - 1];
      FindLastNotOfDrops(s, cs, n - 1);
    }
  }

  /** The erase calls strip exactly the maximal runs of strippable characters:
      the leading run drawn from `LeadingStrip`, then the trailing run drawn
      from `TrailingStrip`. */
  lemma NumberTextStrips(line: string)
    ensures NumberText(line).None? <==> ':' !in line
    ensures ValueSegment(line).Some? ==>
      NumberText(line) == Some(DropTrailing(DropLeading(ValueSegment(line).value, LeadingStrip), TrailingStrip))
  {
    if ValueSegment(line).Some? {
      var segment := ValueSegment(line).value;
      FindFirstNotOfDrops(segment, LeadingStrip, 0);
      assert segment[0..] == segment;
      var left := EraseLeading(segment);
      FindLastNotOfDrops(left, TrailingStrip, |left|);
      assert left[..|left|] == left;
    }
  }

  /** The trimmed text is empty exactly when every character of the value
      segment is strippable at the back (the leading set is contained in the
      trailing one); otherwise it starts and ends with a kept character. */
  lemma NumberTextEmptyIff(line: string)
    requires ':' in line
    ensures var segment := ValueSegment(line).value;
      var text := NumberText(line).value;
      (text == "" <==> forall i :: 0 <= i < |segment| ==> segment[i] in TrailingStrip) &&
      (text != "" ==> text[0] !in LeadingStrip && text[|text| - 1] !in TrailingStrip)
  {
    var segment := ValueSegment(line).value;
    var text := NumberText(line).value;
    match FindFirstNotOf(segment, LeadingStrip, 0)
    case None =>
      assert text == "";
    case Some(p) =>
      var left := segment[p..];
      assert EraseLeading(segment) == left;
      match FindLastNotOf(left, TrailingStrip, |left|)
      case None =>
        assert text == "";
        forall i | 0 <= i < |segment| ensures segment[i] in TrailingStrip {
          if i >= p { assert segment[i] == left[i - p]; }
        }
      case Some(q) =>
        assert text == left[..q + 1];
        assert segment[p + q] == left[q] && left[q] !in TrailingStrip;
  }

  // ---------------------------------------------------------------------------
  // parse_recording_json

  /** The seven fields a line can set. */
  datatype Field = RawFile | TargetH264 | TargetMp4 | Width | Height | Fps | FrameCount

  /** The quoted keys, as the source spells them. */
  const RawFileKey := "\"raw_file\""
  const TargetH264Key := "\"target_h264\""
  const TargetMp4Key := "\"target_mp4\""
  const WidthKey := "\"width\""
  const HeightKey := "\"height\""
  const FpsKey := "\"fps\""
  const FrameCountKey := "\"frame_count\""

  /** The quoted key that selects each field. */
  function Key(f: Field): string
  {
    match f
    case RawFile => RawFileKey
    case TargetH264 => TargetH264Key
    case TargetMp4 => TargetMp4Key
    case Width => WidthKey
    case Height => HeightKey
    case Fps => FpsKey
    case FrameCount => FrameCountKey
  }

  /** The order in which the keys are tried. */
  const KeyOrder: seq<Field> := [RawFile, TargetH264, TargetMp4, Width, Height, Fps, FrameCount]

  /** Reference definition: the first field of `fields` whose key occurs in `line`. */
  function FirstMatch(line: string, fields: seq<Field>): Option<Field>
  {
    if fields == [] then None
    else if Contains(line, Key(fields[0])) then Some(fields[0])
    else FirstMatch(line, fields[1..])
  }

  /** The field a line sets, if any. */
  function MatchedField(line: string): Option<Field>
  {
    FirstMatch(line, KeyOrder)
  }

  /** A field's value, whatever its type. */
  datatype FieldValue = Text(s: string) | Count(n: nat) | Rate(x: real)

  function Get(info: RecordingInfo, f: Field): FieldValue
  {
    match f
    case RawFile => Text(info.rawFile)
    case TargetH264 => Text(info.h264File)
    case TargetMp4 => Text(info.mp4File)
    case Width => Count(info.width)
    case Height => Count(info.height)
    case Fps => Rate(info.fps)
    case FrameCount => Count(info.frameCount)
  }

  /** The value a line assigns to field `f`. */
  function ValueOf(line: string, f: Field, conv: NumberConversion): FieldValue
  {
    match f
    case RawFile => Text(ExtractJsonString(line))
    case TargetH264 => Text(ExtractJsonString(line))
    case TargetMp4 => Text(ExtractJsonString(line))
    case Width => Count(conv.toU32(ExtractJsonNumber(line, conv.stod)))
    case Height => Count(conv.toU32(ExtractJsonNumber(line, conv.stod)))
    case Fps => Rate(ExtractJsonNumber(line, conv.stod))
    case FrameCount => Count(conv.toU64(ExtractJsonNumber(line, conv.stod)))
  }

  /** One iteration of the read loop: the if/else-if chain over the keys. */
  function ApplyLine(info: RecordingInfo, line: string, conv: NumberConversion): (r: RecordingInfo)
    ensures r.valid == info.valid
    ensures MatchedField(line).None? ==> r == info
  {
    MatchedFieldIsChain(line);
    if Contains(line, RawFileKey) then info.(rawFile := ExtractJsonString(line))
    else if Contains(line, TargetH264Key) then info.(h264File := ExtractJsonString(line))
    else if Contains(line, TargetMp4Key) then info.(mp4File := ExtractJsonString(line))
    else if Contains(line, WidthKey) then info.(width := conv.toU32(ExtractJsonNumber(line, conv.stod)))
    else if Contains(line, HeightKey) then info.(height := conv.toU32(ExtractJsonNumber(line, conv.stod)))
    else if Contains(line, FpsKey) then info.(fps := ExtractJsonNumber(line, conv.stod))
    else if Contains(line, FrameCountKey) then info.(frameCount := conv.toU64(ExtractJsonNumber(line, conv.stod)))
    else info
  }

  /** The fields after reading `lines` in order, before `valid` is computed. */
  function ReadLines(lines: seq<string>, conv: NumberConversion): RecordingInfo
  {
    if lines == [] then Initial
    else ApplyLine(ReadLines(lines[..|lines| - 1], conv), lines[|lines| - 1], conv)
  }

  /** The condition the converter needs before it starts encoding. */
  predicate Usable(info: RecordingInfo)
  {
    info.rawFile != "" && info.h264File != "" && info.width > 0 && info.height > 0 && info.frameCount > 0
  }

  /** The result of `parse_recording_json`. */
  function Parsed(file: Option<seq<string>>, conv: NumberConversion): RecordingInfo
  {
    match file
    case None => Initial
    case Some(lines) =>
      var info := ReadLines(lines, conv);
      info.(valid := Usable(info))
  }

  /** `parse_recording_json`: reads the lines one at a time, updating at most
      one field per line, then computes `valid`. */
  method ParseRecording(file: Option<seq<string>>, conv: NumberConversion) returns (info: RecordingInfo)
    ensures info == Parsed(file, conv)
  {
    info := Initial;
    if file.None? {
      return;
    }
    var lines := file.value;
    var n := 0;
    while n < |lines|
      invariant 0 <= n <= |lines|
      invariant info == ReadLines(lines[..n], conv)
    {
      var line := lines[n];
      if Contains(line, RawFileKey) {
        info := info.(rawFile := ExtractJsonString(line));
      } else if Contains(line, TargetH264Key) {
        info := info.(h264File := ExtractJsonString(line));
      } else if Contains(line, TargetMp4Key) {
        info := info.(mp4File := ExtractJsonString(line));
      } else if Contains(line, WidthKey) {
        info := info.(width := conv.toU32(ExtractJsonNumber(line, conv.stod)));
      } else if Contains(line, HeightKey) {
        info := info.(height := conv.toU32(ExtractJsonNumber(line, conv.stod)));
      } else if Contains(line, FpsKey) {
        info := info.(fps := ExtractJsonNumber(line, conv.stod));
      } else if Contains(line, FrameCountKey) {
        info := info.(frameCount := conv.toU64(ExtractJsonNumber(line, conv.stod)));
      }
      assert lines[..n + 1][..n] == lines[..n];
      n := n + 1;
    }
    assert lines[..n] == lines;
    info := info.(valid := !(info.rawFile == "") && !(info.h264File == "") &&
                           info.width > 0 && info.height > 0 && info.frameCount > 0);
  }

  /** `MatchedField` is the source's if/else-if chain over the keys. */
  lemma MatchedFieldIsChain(line: string)
    ensures MatchedField(line) ==
      if Contains(line, RawFileKey) then Some(RawFile)
      else if Contains(line, TargetH264Key) then Some(TargetH264)
      else if Contains(line, TargetMp4Key) then Some(TargetMp4)
      else if Contains(line, WidthKey) then Some(Width)
      else if Contains(line, HeightKey) then Some(Height)
      else if Contains(line, FpsKey) then Some(Fps)
      else if Contains(line, FrameCountKey) then Some(FrameCount)
      else None
  {
    assert KeyOrder[1..] == [TargetH264, TargetMp4, Width, Height, Fps, FrameCount];
    assert KeyOrder[2..] == [TargetMp4, Width, Height, Fps, FrameCount];
    assert KeyOrder[3..] == [Width, Height, Fps, FrameCount];
    assert KeyOrder[4..] == [Height, Fps, FrameCount];
    assert KeyOrder[5..] == [Fps, FrameCount];
    assert KeyOrder[6..] == [FrameCount];
    assert KeyOrder[7..] == [];
    assert FirstMatch(line, KeyOrder[6..]) == if Contains(line, FrameCountKey) then Some(FrameCount) else None;
    assert FirstMatch(line, KeyOrder[5..]) == if Contains(line, FpsKey) then Some(Fps) else FirstMatch(line, KeyOrder[6..]);
    assert FirstMatch(line, KeyOrder[4..]) == if Contains(line, HeightKey) then Some(Height) else FirstMatch(line, KeyOrder[5..]);
    assert FirstMatch(line, KeyOrder[3..]) == if Contains(line, WidthKey) then Some(Width) else FirstMatch(line, KeyOrder[4..]);
    assert FirstMatch(line, KeyOrder[2..]) == if Contains(line, TargetMp4Key) then Some(TargetMp4) else FirstMatch(line, KeyOrder[3..]);
    assert FirstMatch(line, KeyOrder[1..]) == if Contains(line, TargetH264Key) then Some(TargetH264) else FirstMatch(line, KeyOrder[2..]);
  }

  /** A line sets exactly the field of the first key it contains, in the
      order raw_file, target_h264, target_mp4, width, height, fps,
      frame_count, and leaves every other field alone. */
  lemma ApplyLineSetsMatchedField(info: RecordingInfo, line: string, conv: NumberConversion, f: Field)
    ensures Get(ApplyLine(info, line, conv), f) ==
      if MatchedField(line) == Some(f) then ValueOf(line, f, conv) else Get(info, f)
    ensures ApplyLine(info, line, conv).valid == info.valid
  {
    MatchedFieldIsChain(line);
  }

  /** The index of the last line that sets field `f`. */
  function LastMatch(lines: seq<string>, f: Field): (r: Option<nat>)
    ensures r.Some? ==> r.value < |lines| && MatchedField(lines[r.value]) == Some(f)
    ensures r.Some? ==> forall j :: r.value < j < |lines| ==> MatchedField(lines[j]) != Some(f)
    ensures r.None? ==> forall j :: 0 <= j < |lines| ==> MatchedField(lines[j]) != Some(f)
  {
    if lines == [] then None
    else if MatchedField(lines[|lines| - 1]) == Some(f) then Some(|lines| - 1)
    else LastMatch(lines[..|lines| - 1], f)
  }

  /** The value field `f` ends up with: the one given by the last line that
      sets it, or its initial value if no line does. */
  function FinalValue(lines: seq<string>, f: Field, conv: NumberConversion): FieldValue
  {
    match LastMatch(lines, f)
    case None => Get(Initial, f)
    case Some(j) => ValueOf(lines[j], f, conv)
  }

  /** A later line overwrites an earlier value: reading the lines leaves every
      field at its `FinalValue`. */
  lemma {:induction false} LastLineWins(lines: seq<string>, f: Field, conv: NumberConversion)
    ensures Get(ReadLines(lines, conv), f) == FinalValue(lines, f, conv)
  {
    if lines != [] {
      var prefix := lines[..|lines| - 1];
      LastLineWins(prefix, f, conv);
      ApplyLineSetsMatchedField(ReadLines(prefix, conv), lines[|lines| - 1], conv, f);
      if LastMatch(lines, f).Some? && LastMatch(lines, f).value < |lines| - 1 {
        assert lines[LastMatch(lines, f).value] == prefix[LastMatch(lines, f).value];
      }
    }
  }

  /** A width, height or frame_count line without a colon converts nothing
      and stores 0, which makes the descriptor invalid if it is the last
      line for that field. */
  lemma ColonlessCountLine(line: string, f: Field, conv: NumberConversion)
    requires CastsKeepZero(conv) && f in {Width, Height, FrameCount} && ':' !in line
    ensures ValueOf(line, f, conv) == Count(0)
  {
    assert ExtractJsonNumber(line, conv.stod) == 0.0;
  }

  /** `Usable` read field by field. */
  lemma UsableByField(info: RecordingInfo)
    ensures Usable(info) <==>
      Get(info, RawFile) != Text("") && Get(info, TargetH264) != Text("") &&
      Get(info, Width) != Count(0) && Get(info, Height) != Count(0) && Get(info, FrameCount) != Count(0)
  {
  }

  /** A descriptor that opens is valid iff the last raw_file and target_h264
      lines extract non-empty text and the last width, height and
      frame_count lines convert to non-zero numbers. A file that cannot be
      opened is never valid. */
  lemma ValidIff(file: Option<seq<string>>, conv: NumberConversion)
    ensures file.None? ==> !Parsed(file, conv).valid
    ensures file.Some? ==>
      (Parsed(file, conv).valid <==>
        FinalValue(file.value, RawFile, conv) != Text("") &&
        FinalValue(file.value, TargetH264, conv) != Text("") &&
        FinalValue(file.value, Width, conv) != Count(0) &&
        FinalValue(file.value, Height, conv) != Count(0) &&
        FinalValue(file.value, FrameCount, conv) != Count(0))
  {
    if file.Some? {
      var lines := file.value;
      var info := ReadLines(lines, conv);
      assert Parsed(file, conv).valid == Usable(info);
      UsableByField(info);
      LastLineWins(lines, RawFile, conv);
      LastLineWins(lines, TargetH264, conv);
      LastLineWins(lines, Width, conv);
      LastLineWins(lines, Height, conv);
      LastLineWins(lines, FrameCount, conv);
    }
  }

  /** Lines for target_mp4 and fps (and lines with no key) never change the
      verdict: appending one leaves `valid` as it was. */
  lemma ValidIgnoresMp4AndFps(lines: seq<string>, line: string, conv: NumberConversion)
    requires MatchedField(line) !in {Some(RawFile), Some(TargetH264), Some(Width), Some(Height), Some(FrameCount)}
    ensures Parsed(Some(lines + [line]), conv).valid == Parsed(Some(lines), conv).valid
  {
    assert (lines + [line])[..|lines|] == lines;
    var before := ReadLines(lines, conv);
    MatchedFieldIsChain(line);
    assert Usable(ApplyLine(before, line, conv)) == Usable(before);
  }
}
