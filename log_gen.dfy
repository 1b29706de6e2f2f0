/** The line parser of the logging code generator (pkg/util/log/gen/main.go):
    it scans the lines of the logging .proto file, finds the members of
    `enum Severity` and `enum Channel`, and collects one record per member
    with the names and comments the output templates use.

    Title-casing (golang.org/x/text/cases) is passed in as the uninterpreted
    function `title`. */
module LogGen {
  import opened GoStrings

  /** One enum member as the templates see it: main.go's `info` record
      (RawComment, Comment, PComment, Name, NAME, NameLower). */
  datatype Info = Info(
    rawComment: string,
    comment: string,
    pComment: string,
    name: string,
    nameUpper: string,
    nameLower: string)

  /** The loop's variables: whether it is inside the Severity block or the
      Channel block, the comment gathered for the next member, and the
      records emitted so far. */
  datatype ScanState = ScanState(
    inSevs: bool,
    inChans: bool,
    rawComment: string,
    chans: seq<Info>,
    sevs: seq<Info>)

  const Initial := ScanState(false, false, "", [], [])

  /** The one channel member that is never emitted. */
  const ChannelMax := "CHANNEL_MAX"

  predicate Outside(st: ScanState) {
    !st.inSevs && !st.inChans
  }

  /** The fixed start of a member's Comment. */
  function CommentHeader(key: string, kind: string): string {
    "// The `" + key + "` " + kind
  }

  /** What a trimmed line starts with, as far as the loop of readInput cares.
      The prefixes tested are pairwise exclusive, so at most one applies. */
  datatype LineKind = Blank | SeverityHeader | ChannelHeader | CloseBrace | CommentLine | ReservedLine | OtherLine

  function KindOf(line: string): (k: LineKind)
    ensures k == Blank <==> line == ""
    ensures k == SeverityHeader <==> HasPrefix(line, "enum Severity")
    ensures k == ChannelHeader <==> HasPrefix(line, "enum Channel")
    ensures k == CloseBrace <==> HasPrefix(line, "}")
    ensures k == CommentLine <==> HasPrefix(line, "//")
    ensures k == ReservedLine <==> HasPrefix(line, "reserved")
  {
    if line == "" then Blank
    else if HasPrefix(line, "enum Severity") then
      assert line[0] == 'e' && line[5] == 'S' by { assert line[..13][0] == line[0] && line[..13][5] == line[5]; }
      SeverityHeader
    else if HasPrefix(line, "enum Channel") then
      assert line[0] == 'e' by { assert line[..12][0] == line[0]; }
      ChannelHeader
    else if HasPrefix(line, "}") then
      assert line[0] == '}' by { assert line[..1][0] == line[0]; }
      CloseBrace
    else if HasPrefix(line, "//") then
      assert line[0] == '/' by { assert line[..2][0] == line[0]; }
      CommentLine
    else if HasPrefix(line, "reserved") then ReservedLine
    else OtherLine
  }

  /** A trimmed line inside an open block that the loop treats as a member:
      not blank, not the block's closing brace, not a comment, not `reserved`. */
  predicate IsMemberLine(line: string) {
    KindOf(line) !in {Blank, CloseBrace, CommentLine, ReservedLine}
  }

  /** The record for member `key` of a block of the given kind ("severity" or
      "channel"), with the comment gathered before it. */
  function MakeInfo(key: string, rawComment: string, kind: string, title: string -> string): (r: Info)
    ensures r.rawComment == rawComment
    ensures HasPrefix(r.comment, CommentHeader(key, kind))
    ensures var tail := r.comment[|CommentHeader(key, kind)|..];
      if HasPrefix(rawComment, "// " + key) then "// " + key + tail == rawComment else tail == rawComment
    ensures NoOccurrence(r.pComment, "//") && |r.pComment| <= |r.comment|
    ensures ' ' !in r.name
    ensures |r.nameUpper| == |key| && NoAsciiLower(r.nameUpper)
    ensures |r.nameLower| == |key| && NoAsciiUpper(r.nameLower)
    ensures ToLower(r.nameUpper) == r.nameLower
    ensures r.nameUpper == ToUpper(key) && r.nameLower == ToLower(key)
    ensures r.pComment == ReplaceAll(ReplaceAll(r.comment, "// ", ""), "//", "")
    ensures r.name == ReplaceAll(title(ReplaceAll(ToLower(key), "_", " ")), " ", "")
  {
    var comment := CommentHeader(key, kind) + TrimPrefix(rawComment, "// " + key);
    var pComment := ReplaceAll(ReplaceAll(comment, "// ", ""), "//", "");
    var name := ReplaceAll(title(ReplaceAll(ToLower(key), "_", " ")), " ", "");
    RemoveDoubleSlash(ReplaceAll(comment, "// ", ""));
    ReplaceCharRemovesIt(title(ReplaceAll(ToLower(key), "_", " ")), ' ', "");
    ToUpperHasNoLower(key);
    ToLowerHasNoUpper(key);
    LowerOfUpper(key);
    assert comment[|CommentHeader(key, kind)|..] == TrimPrefix(rawComment, "// " + key);
    Info(rawComment, comment, pComment, name, ToUpper(key), ToLower(key))
  }

  /** Removing "// " and then "//" from "// " followed by slash-free text
      leaves that text. */
  lemma StripLeadingMarker(rest: string)
    requires '/' !in rest
    ensures ReplaceAll(ReplaceAll("// " + rest, "// ", ""), "//", "") == rest
  {
    NoOccurrenceWithoutFirst(rest, "// ");
    ReplaceAllWithoutOccurrence(rest, "// ", "");
    assert NoStraddle("// ", rest, "// ") by {
      forall k | 0 <= k < 3 < k + 3 ensures !OccursAt("// " + rest, "// ", k) {
        if k + 3 <= |"// " + rest| {
          assert ("// " + rest)[k..k + 3][2 - k] == ' ';
        }
      }
    }
    calc {
      ReplaceAll("// " + rest, "// ", "");
    == { ReplaceAllConcat("// ", rest, "// ", ""); }
      ReplaceAll("// ", "// ", "") + ReplaceAll(rest, "// ", "");
    == { ReplaceAllOfPattern("// ", ""); }
      rest;
    }
    NoOccurrenceWithoutFirst(rest, "//");
    ReplaceAllWithoutOccurrence(rest, "//", "");
  }

  /** The header is "// " followed by "The `key` kind", and holds no slash
      past its first two characters when the key and kind hold none. */
  lemma CommentHeaderSentence(key: string, kind: string)
    requires '/' !in key && '/' !in kind
    ensures CommentHeader(key, kind) == "// " + ("The `" + key + "` " + kind)
    ensures '/' !in "The `" + key + "` " + kind
  {
    assert "// The `" == "// " + "The `";
    var rest := "The `" + key + "` " + kind;
    forall i | 0 <= i < |rest| ensures rest[i] != '/' {
      if i < 5 {
        assert rest[i] == "The `"[i];
      } else if i < 5 + |key| {
        assert rest[i] == key[i - 5];
      } else if i < 7 + |key| {
        assert rest[i] == "` "[i - 5 - |key|];
      } else {
        assert rest[i] == kind[i - 7 - |key|];
      }
    }
  }

  /** A member with no comment before it, whose key and kind hold no slash,
      gets the plain sentence "The `key` kind" as its PComment. */
  lemma PCommentOfUncommentedMember(key: string, kind: string, title: string -> string)
    requires '/' !in key && '/' !in kind
    ensures MakeInfo(key, "", kind, title).pComment == "The `" + key + "` " + kind
  {
    var r := MakeInfo(key, "", kind, title);
    CommentHeaderSentence(key, kind);
    assert !HasPrefix("", "// " + key);
    assert r.comment == CommentHeader(key, kind) by {
      assert r.comment == r.comment[..|CommentHeader(key, kind)|] + r.comment[|CommentHeader(key, kind)|..];
    }
    StripLeadingMarker("The `" + key + "` " + kind);
  }

  /** The member branch of the loop: emit a record into the open block's
      list (never for CHANNEL_MAX) and reset the gathered comment. */
  function MemberStep(st: ScanState, line: string, title: string -> string): ScanState {
    var key := FirstField(line);
    var sevs := if st.inSevs then st.sevs + [MakeInfo(key, st.rawComment, "severity", title)] else st.sevs;
    var chans := if st.inChans && key != ChannelMax
      then st.chans + [MakeInfo(key, st.rawComment, "channel", title)] else st.chans;
    ScanState(st.inSevs, st.inChans, "", chans, sevs)
  }

  /** One iteration of the loop of readInput, on a line already trimmed of
      surrounding white space. */
  function Step(st: ScanState, line: string, title: string -> string): ScanState {
    var kind := KindOf(line);
    if kind == Blank then st
    else if !st.inSevs && !st.inChans && kind == SeverityHeader then st.(inSevs := true)
    else if st.inSevs && !st.inChans && kind == CloseBrace then st.(inSevs := false)
    else if !st.inSevs && !st.inChans && kind == ChannelHeader then st.(inChans := true)
    else if !st.inSevs && st.inChans && kind == CloseBrace then st.(inChans := false)
    else if !st.inSevs && !st.inChans then st
    else if kind == CommentLine then st.(rawComment := st.rawComment + line + "\n")
    else if kind == ReservedLine then st.(rawComment := "")
    else MemberStep(st, line, title)
  }

  /** The state after the loop has run over the trimmed `lines`. */
  function Scan(lines: seq<string>, title: string -> string): ScanState {
    if lines == [] then Initial
    else Step(Scan(lines[..|lines| - 1], title), lines[|lines| - 1], title)
  }

  /** `f` applied to every line. */
  function MapLines(f: string -> string, lines: seq<string>): (r: seq<string>)
    ensures |r| == |lines| && forall i :: 0 <= i < |lines| ==> r[i] == f(lines[i])
  {
    seq(|lines|, i requires 0 <= i < |lines| => f(lines[i]))
  }

  /** Every line trimmed of its surrounding white space, as the loop sees it. */
  function Trimmed(lines: seq<string>): seq<string> {
    MapLines(TrimSpace, lines)
  }

  /** Taking one more element of a sequence appends that element. */
  lemma TakeOneMore<T>(s: seq<T>, i: int)
    requires 0 <= i < |s|
    ensures s[..i + 1] == s[..i] + [s[i]]
  {
  }

  lemma TakeAll<T>(s: seq<T>)
    ensures s[..|s|] == s
  {
  }

  /** readInput after the file has been read: split the contents into lines
      and scan them. Returns the channel records and the severity records. */
  method ReadInput(protoData: string, title: string -> string) returns (chans: seq<Info>, sevs: seq<Info>)
    ensures var st := Scan(Trimmed(Split(protoData, '\n')), title); chans == st.chans && sevs == st.sevs
  {
    var lines := Split(protoData, '\n');
    ghost var trimmed := Trimmed(lines);
    var inSevs, inChans, rawComment := false, false, "";
    chans, sevs := [], [];
    for i := 0 to |lines|
      invariant ScanState(inSevs, inChans, rawComment, chans, sevs) == Scan(trimmed[..i], title)
    {
      TakeOneMore(trimmed, i);
      ScanLast(trimmed[..i], trimmed[i], title);
      var line := TrimSpace(lines[i]);
      if line == "" {
        continue;
      }
      if !inSevs && !inChans && HasPrefix(line, "enum Severity") {
        inSevs := true;
        continue;
      } else if inSevs && !inChans && HasPrefix(line, "}") {
        inSevs := false;
        continue;
      } else if !inSevs && !inChans && HasPrefix(line, "enum Channel") {
        inChans := true;
        continue;
      } else if !inSevs && inChans && HasPrefix(line, "}") {
        inChans := false;
        continue;
      }
      if !inSevs && !inChans {
        continue;
      }
      if HasPrefix(line, "//") {
        rawComment := rawComment + line + "\n";
        continue;
      }
      if HasPrefix(line, "reserved") {
        rawComment := "";
        continue;
      }
      var key := FirstField(line);
      if inSevs {
        sevs := sevs + [MakeInfo(key, rawComment, "severity", title)];
      }
      if inChans && key != ChannelMax {
        chans := chans + [MakeInfo(key, rawComment, "channel", title)];
      }
      rawComment := "";
    }
    TakeAll(trimmed);
  }

  // ----- Properties of one step -----

  /** A block opens only from outside both blocks, on its own header line. */
  lemma BlockOpensOnlyFromOutside(st: ScanState, line: string, title: string -> string)
    ensures var st' := Step(st, line, title);
      && (!st.inSevs && st'.inSevs ==> Outside(st) && HasPrefix(line, "enum Severity"))
      && (!st.inChans && st'.inChans ==> Outside(st) && HasPrefix(line, "enum Channel"))
  {
  }

  /** A `}` line closes only the block that is open, and nothing else closes one. */
  lemma BlockClosesOnlyOnBrace(st: ScanState, line: string, title: string -> string)
    requires !(st.inSevs && st.inChans)
    ensures var st' := Step(st, line, title);
      && (st.inSevs && !st'.inSevs ==> HasPrefix(line, "}") && !st'.inChans)
      && (st.inChans && !st'.inChans ==> HasPrefix(line, "}") && !st'.inSevs)
  {
  }

  /** A line read while outside both blocks emits nothing and leaves the
      gathered comment alone. */
  lemma OutsideLineEmitsNothing(st: ScanState, line: string, title: string -> string)
    requires Outside(st)
    ensures var st' := Step(st, line, title);
      st'.sevs == st.sevs && st'.chans == st.chans && st'.rawComment == st.rawComment
  {
  }

  /** Inside a block: a comment line is appended to the gathered comment with
      a newline, a `reserved` line discards it, and every member line (a
      skipped CHANNEL_MAX too) resets it. */
  lemma CommentHandling(st: ScanState, line: string, title: string -> string)
    requires !(st.inSevs && st.inChans) && !Outside(st)
    ensures var st' := Step(st, line, title);
      && (HasPrefix(line, "//") ==> st'.rawComment == st.rawComment + line + "\n")
      && (HasPrefix(line, "reserved") ==> st'.rawComment == "")
      && (IsMemberLine(line) ==> st'.rawComment == "" && st'.inSevs == st.inSevs && st'.inChans == st.inChans)
  {
  }

  /** A member line emits exactly one record, into the list of its own block;
      a CHANNEL_MAX member emits none. */
  lemma MemberLineEmits(st: ScanState, line: string, title: string -> string)
    requires !(st.inSevs && st.inChans)
    requires IsMemberLine(line)
    ensures var st', key := Step(st, line, title), FirstField(line);
      && (st.inSevs ==> st'.sevs == st.sevs + [MakeInfo(key, st.rawComment, "severity", title)] && st'.chans == st.chans)
      && (st.inChans && key != ChannelMax ==> st'.chans == st.chans + [MakeInfo(key, st.rawComment, "channel", title)] && st'.sevs == st.sevs)
      && (st.inChans && key == ChannelMax ==> st'.chans == st.chans && st'.sevs == st.sevs)
  {
  }

  /** One step only appends to the two record lists. */
  lemma StepOnlyAppends(st: ScanState, line: string, title: string -> string)
    ensures var st' := Step(st, line, title);
      st.sevs <= st'.sevs && st.chans <= st'.chans
  {
    var st' := Step(st, line, title);
    assert st'.sevs == st.sevs || st'.sevs == st.sevs + [st'.sevs[|st'.sevs| - 1]];
    assert st'.chans == st.chans || st'.chans == st.chans + [st'.chans[|st'.chans| - 1]];
  }

  /** Empty, or a run of whole comment lines each ending in a newline: it
      starts with "//", ends with a newline, and every other newline in it is
      followed by "//". */
  predicate CommentShaped(raw: string) {
    || raw == ""
    || (&& HasPrefix(raw, "//")
        && raw[|raw| - 1] == '\n'
        && forall k :: 0 <= k < |raw| - 1 && raw[k] == '\n' ==> OccursAt(raw, "//", k + 1))
  }

  /** Appending one comment line (without a newline of its own) and a newline
      keeps a run of comment lines a run of comment lines. */
  lemma AppendCommentLine(raw: string, line: string)
    requires CommentShaped(raw) && HasPrefix(line, "//") && '\n' !in line
    ensures CommentShaped(raw + line + "\n")
  {
    var r := raw + line + "\n";
    if raw == "" {
      assert r[..2] == line[..2];
    } else {
      assert r[..2] == raw[..2];
    }
    forall k | 0 <= k < |r| - 1 && r[k] == '\n' ensures OccursAt(r, "//", k + 1) {
      if k < |raw| - 1 {
        assert r[k] == raw[k];
        assert r[k + 1..k + 3] == raw[k + 1..k + 3];
      } else if k == |raw| - 1 {
        assert r[k + 1..k + 3] == line[..2];
      }
    }
  }

  /** One line without a newline of its own keeps the gathered comment a run
      of comment lines. */
  lemma StepKeepsCommentShape(st: ScanState, line: string, title: string -> string)
    requires CommentShaped(st.rawComment) && '\n' !in line
    ensures CommentShaped(Step(st, line, title).rawComment)
  {
    if KindOf(line) == CommentLine {
      AppendCommentLine(st.rawComment, line);
    }
  }

  // ----- Properties of the whole scan -----

  /** `Scan` of a non-empty input is one step after `Scan` of all but its last line. */
  lemma ScanLast(pre: seq<string>, line: string, title: string -> string)
    ensures Scan(pre + [line], title) == Step(Scan(pre, title), line, title)
  {
    assert (pre + [line])[..|pre|] == pre;
  }

  /** The parser is never inside both blocks at once. */
  lemma {:induction false} NeverInBothBlocks(lines: seq<string>, title: string -> string)
    ensures var st := Scan(lines, title); !(st.inSevs && st.inChans)
  {
    if lines != [] {
      NeverInBothBlocks(lines[..|lines| - 1], title);
    }
  }

  /** Lines that are blank after trimming are skipped entirely: removing one
      anywhere changes nothing, neither the records nor the gathered comment. */
  lemma {:induction false} BlankLineIgnored(a: seq<string>, c: seq<string>, title: string -> string)
    ensures Scan(a + [""] + c, title) == Scan(a + c, title)
    decreases |c|
  {
    if c == [] {
      assert a + [""] + c == a + [""];
      assert a + c == a;
      ScanLast(a, "", title);
    } else {
      var c', l := c[..|c| - 1], c[|c| - 1];
      BlankLineIgnored(a, c', title);
      assert a + [""] + c == (a + [""] + c') + [l];
      assert a + c == (a + c') + [l];
      ScanLast(a + [""] + c', l, title);
      ScanLast(a + c', l, title);
    }
  }

  /** Mapping line by line distributes over concatenation. */
  lemma MapLinesConcat(f: string -> string, x: seq<string>, y: seq<string>)
    ensures MapLines(f, x + y) == MapLines(f, x) + MapLines(f, y)
  {
    var l, r := MapLines(f, x + y), MapLines(f, x) + MapLines(f, y);
    forall i | 0 <= i < |x + y| ensures l[i] == r[i] {
      if i < |x| {
        assert (x + y)[i] == x[i];
      } else {
        assert (x + y)[i] == y[i - |x|];
      }
    }
  }

  /** A raw line of white space only is skipped by readInput: removing it
      from the file changes nothing. */
  lemma {:induction false} WhiteSpaceLineIgnored(a: seq<string>, ws: string, c: seq<string>, title: string -> string)
    requires forall k :: 0 <= k < |ws| ==> IsSpace(ws[k])
    ensures Scan(Trimmed(a + [ws] + c), title) == Scan(Trimmed(a + c), title)
  {
    MapLinesConcat(TrimSpace, a + [ws], c);
    MapLinesConcat(TrimSpace, a, [ws]);
    MapLinesConcat(TrimSpace, a, c);
    assert Trimmed([ws]) == [""];
    BlankLineIgnored(Trimmed(a), Trimmed(c), title);
  }

  lemma PrefixTransitive(x: seq<Info>, y: seq<Info>, z: seq<Info>)
    requires x <= y && y <= z
    ensures x <= z
  {
    assert z[..|x|] == z[..|y|][..|x|];
  }

  /** Records are only ever appended: the records of a prefix of the input
      lead the records of the whole input, in the same order. */
  lemma {:induction false} RecordsOnlyAppended(a: seq<string>, b: seq<string>, title: string -> string)
    ensures Scan(a, title).sevs <= Scan(a + b, title).sevs
    ensures Scan(a, title).chans <= Scan(a + b, title).chans
    decreases |b|
  {
    if b == [] {
      assert a + b == a;
    } else {
      var b', l := b[..|b| - 1], b[|b| - 1];
      RecordsOnlyAppended(a, b', title);
      assert a + b == (a + b') + [l];
      ScanLast(a + b', l, title);
      var mid := Scan(a + b', title);
      StepOnlyAppends(mid, l, title);
      PrefixTransitive(Scan(a, title).sevs, mid.sevs, Scan(a + b, title).sevs);
      PrefixTransitive(Scan(a, title).chans, mid.chans, Scan(a + b, title).chans);
    }
  }

  /** Without an `enum Severity` or `enum Channel` header line there are no
      records, and the parser never leaves its initial state. */
  lemma {:induction false} NoHeaderNoRecords(lines: seq<string>, title: string -> string)
    requires forall i :: 0 <= i < |lines| ==>
      !HasPrefix(lines[i], "enum Severity") && !HasPrefix(lines[i], "enum Channel")
    ensures Scan(lines, title) == Initial
  {
    if lines != [] {
      NoHeaderNoRecords(lines[..|lines| - 1], title);
    }
  }

  /** Over lines without newlines, the gathered comment is always empty or a
      run of whole comment lines. */
  lemma {:induction false} RawCommentShape(lines: seq<string>, title: string -> string)
    requires forall i :: 0 <= i < |lines| ==> '\n' !in lines[i]
    ensures CommentShaped(Scan(lines, title).rawComment)
  {
    if lines != [] {
      RawCommentShape(lines[..|lines| - 1], title);
      StepKeepsCommentShape(Scan(lines[..|lines| - 1], title), lines[|lines| - 1], title);
    }
  }

  /** The lines readInput scans hold no newline. */
  lemma TrimmedLinesHaveNoNewline(protoData: string)
    ensures var lines := Trimmed(Split(protoData, '\n'));
      forall i :: 0 <= i < |lines| ==> '\n' !in lines[i]
  {
    var pieces := Split(protoData, '\n');
    var lines := Trimmed(pieces);
    forall i | 0 <= i < |lines| ensures '\n' !in lines[i] {
      var j :| TrimmedAt(pieces[i], lines[i], j);
      if '\n' in lines[i] {
        OccursChars(pieces[i], lines[i], j, '\n');
      }
    }
  }

  /** After any input the comment readInput has gathered is empty or a run of
      whole `//` lines, each ending in a newline. */
  lemma GatheredCommentShape(protoData: string, title: string -> string)
    ensures CommentShaped(Scan(Trimmed(Split(protoData, '\n')), title).rawComment)
  {
    TrimmedLinesHaveNoNewline(protoData);
    RawCommentShape(Trimmed(Split(protoData, '\n')), title);
  }

  /** Line `j` is a member line of the Severity block that produced `info`. */
  predicate SeverityFrom(lines: seq<string>, title: string -> string, j: int, info: Info) {
    0 <= j < |lines| &&
    var st := Scan(lines[..j], title);
    st.inSevs && IsMemberLine(lines[j]) && info == MakeInfo(FirstField(lines[j]), st.rawComment, "severity", title)
  }

  /** Line `j` is a member line of the Channel block, not CHANNEL_MAX, that produced `info`. */
  predicate ChannelFrom(lines: seq<string>, title: string -> string, j: int, info: Info) {
    0 <= j < |lines| &&
    var st := Scan(lines[..j], title);
    st.inChans && IsMemberLine(lines[j]) && FirstField(lines[j]) != ChannelMax
    && info == MakeInfo(FirstField(lines[j]), st.rawComment, "channel", title)
  }

  /** A step that adds a severity record read a member line inside the
      Severity block, and the record is that member's. */
  lemma SeverityGrowth(st: ScanState, line: string, title: string -> string)
    requires !(st.inSevs && st.inChans)
    requires |Step(st, line, title).sevs| > |st.sevs|
    ensures st.inSevs && IsMemberLine(line)
    ensures Step(st, line, title).sevs == st.sevs + [MakeInfo(FirstField(line), st.rawComment, "severity", title)]
  {
  }

  /** A step that adds a channel record read a member line other than
      CHANNEL_MAX inside the Channel block, and the record is that member's. */
  lemma ChannelGrowth(st: ScanState, line: string, title: string -> string)
    requires !(st.inSevs && st.inChans)
    requires |Step(st, line, title).chans| > |st.chans|
    ensures st.inChans && IsMemberLine(line) && FirstField(line) != ChannelMax
    ensures Step(st, line, title).chans == st.chans + [MakeInfo(FirstField(line), st.rawComment, "channel", title)]
  {
  }

  /** A severity record's origin stays its origin when the input grows. */
  lemma SeverityFromExtends(pre: seq<string>, last: string, title: string -> string, j: int, info: Info)
    requires SeverityFrom(pre, title, j, info)
    ensures SeverityFrom(pre + [last], title, j, info)
  {
    assert (pre + [last])[..j] == pre[..j];
  }

  /** A channel record's origin stays its origin when the input grows. */
  lemma ChannelFromExtends(pre: seq<string>, last: string, title: string -> string, j: int, info: Info)
    requires ChannelFrom(pre, title, j, info)
    ensures ChannelFrom(pre + [last], title, j, info)
  {
    assert (pre + [last])[..j] == pre[..j];
  }

  /** Every severity record comes from a member line inside the Severity block. */
  lemma {:induction false} SeverityRecordOrigin(lines: seq<string>, title: string -> string, k: int)
    requires 0 <= k < |Scan(lines, title).sevs|
    ensures exists j :: SeverityFrom(lines, title, j, Scan(lines, title).sevs[k])
  {
    var pre, last := lines[..|lines| - 1], lines[|lines| - 1];
    assert lines == pre + [last];
    var st := Scan(pre, title);
    NeverInBothBlocks(pre, title);
    StepOnlyAppends(st, last, title);
    if k < |st.sevs| {
      SeverityRecordOrigin(pre, title, k);
      var j :| SeverityFrom(pre, title, j, st.sevs[k]);
      SeverityFromExtends(pre, last, title, j, st.sevs[k]);
    } else {
      SeverityGrowth(st, last, title);
      assert SeverityFrom(lines, title, |pre|, Scan(lines, title).sevs[k]);
    }
  }

  /** Every channel record comes from a member line inside the Channel block,
      and none from a CHANNEL_MAX line. */
  lemma {:induction false} ChannelRecordOrigin(lines: seq<string>, title: string -> string, k: int)
    requires 0 <= k < |Scan(lines, title).chans|
    ensures exists j :: ChannelFrom(lines, title, j, Scan(lines, title).chans[k])
  {
    var pre, last := lines[..|lines| - 1], lines[|lines| - 1];
    assert lines == pre + [last];
    var st := Scan(pre, title);
    NeverInBothBlocks(pre, title);
    StepOnlyAppends(st, last, title);
    if k < |st.chans| {
      ChannelRecordOrigin(pre, title, k);
      var j :| ChannelFrom(pre, title, j, st.chans[k]);
      ChannelFromExtends(pre, last, title, j, st.chans[k]);
    } else {
      ChannelGrowth(st, last, title);
      assert ChannelFrom(lines, title, |pre|, Scan(lines, title).chans[k]);
    }
  }
}
