/** The line-based resolve protocol: reading a request, answering it, and a client that reads the answer. */
module ResolveSocket {
  import opened ByteStrings
  import opened Paths
  import opened WireText
  import opened ResolveRoute
  import SecretTables
  import Daemon
  import AuditEntries
  import AuditLog
  import Trail

  const MAX_PATHS := 256
  const PROTOCOL_VERSION := 1

  datatype Violation =
    | MalformedRequestLine | UnknownVerb | MalformedProtocolVersion | UnsupportedProtocolVersion
    | MalformedPathCount | TooManyPaths | RequestTruncated | BadLine | MalformedPath | MalformedVersion

  datatype Request =
    | Disconnected
    | Violated(reason: Violation)
    | Ready(token: Bytes, targets: seq<Target>)

  function Verb(): Bytes { Ascii("RESOLVE") }

  /** Bytes as characters. A byte outside ASCII becomes a character no path may hold. */
  function AsChars(b: Bytes): (s: string) {
    seq(|b|, i requires 0 <= i < |b| => b[i] as char)
  }

  /** The first line's four fields, checked in the daemon's order: the token and the number of path lines. */
  function ParseRequestLine(line: Bytes): (r: Result<(Bytes, nat), Violation>)
    ensures r.Ok? ==> r.value.1 <= MAX_PATHS
  {
    var first := Cut(line, SPACE);
    if first.None? then Err(MalformedRequestLine)
    else
      var second := Cut(first.value.1, SPACE);
      if second.None? then Err(MalformedRequestLine)
      else
        var third := Cut(second.value.1, SPACE);
        if third.None? || third.value.0 == [] then Err(MalformedRequestLine)
        else if first.value.0 != Verb() then Err(UnknownVerb)
        else
          var version := ParseUint(second.value.0, U32_LIMIT);
          var count := ParseUint(third.value.1, U64_LIMIT);
          if version.None? then Err(MalformedProtocolVersion)
          else if version.value != PROTOCOL_VERSION then Err(UnsupportedProtocolVersion)
          else if count.None? then Err(MalformedPathCount)
          else if count.value > MAX_PATHS then Err(TooManyPaths)
          else Ok((third.value.0, count.value))
  }

  function ParseTarget(line: Bytes): Result<Target, Violation> {
    var pinned := CutLast(line, AT);
    var path := AsChars(if pinned.Some? then pinned.value.0 else line);
    if !ValidPath(path) then Err(MalformedPath)
    else if pinned.None? then Ok(Target(path, None))
    else
      var version := ParseUint(pinned.value.1, U32_LIMIT);
      if version.None? || version.value == 0 then Err(MalformedVersion)
      else Ok(Target(path, Some(version.value)))
  }

  /** `count` more target lines after those already read. */
  function ReadTargets(s: Bytes, count: nat, sofar: seq<Target>): (Result<seq<Target>, Violation>, Bytes)
    decreases count
  {
    if count == 0 then (Ok(sofar), s)
    else
      var (line, rest) := NextLine(s);
      if line.Closed? then (Err(RequestTruncated), rest)
      else if line.Rejected? then (Err(BadLine), rest)
      else
        match ParseTarget(line.text)
        case Err(reason) => (Err(reason), rest)
        case Ok(target) => ReadTargets(rest, count - 1, sofar + [target])
  }

  /** What a stream asks for, and what is left of it. */
  function Parse(s: Bytes): (Request, Bytes) {
    var (line, rest) := NextLine(s);
    if line.Closed? then (Disconnected, rest)
    else if line.Rejected? then (Violated(BadLine), rest)
    else
      match ParseRequestLine(line.text)
      case Err(reason) => (Violated(reason), rest)
      case Ok((token, count)) =>
        var (targets, left) := ReadTargets(rest, count, []);
        if targets.Err? then (Violated(targets.error), left) else (Ready(token, targets.value), left)
  }

  /** `read_request`: reads no further than it must. */
  method ReadRequest(reader: Reader) returns (request: Request)
    modifies reader
    ensures (request, reader.stream) == Parse(old(reader.stream))
  {
    hide NextLine, ParseRequestLine, ParseTarget;
    var line := reader.ReadCappedLine();
    if line.Closed? {
      return Disconnected;
    }
    if line.Rejected? {
      return Violated(BadLine);
    }
    var header := ParseRequestLine(line.text);
    if header.Err? {
      return Violated(header.error);
    }
    ghost var start := reader.stream;
    var (token, count) := header.value;
    var targets: seq<Target> := [];
    for i := 0 to count
      invariant ReadTargets(reader.stream, count - i, targets) == ReadTargets(start, count, [])
    {
      line := reader.ReadCappedLine();
      if line.Closed? {
        return Violated(RequestTruncated);
      }
      if line.Rejected? {
        return Violated(BadLine);
      }
      var target := ParseTarget(line.text);
      if target.Err? {
        return Violated(target.error);
      }
      targets := targets + [target.value];
    }
    return Ready(token, targets);
  }

  // ----- the client's side of a request -----

  lemma PathIsAscii(path: SecretPath)
    ensures IsAscii(path)
    ensures forall i :: 0 <= i < |path| ==> path[i] != '@' && path[i] != '\n'
  {
    hide Split;
    PathChars(path);
  }

  function PathBytes(path: SecretPath): Bytes {
    PathIsAscii(path);
    Ascii(path)
  }

  function PrintTarget(t: Target): Bytes {
    PathBytes(t.path) + (if t.version.Some? then [AT] + Dec(t.version.value) else [])
  }

  function PrintTargets(targets: seq<Target>): Bytes {
    if targets == [] then [] else PrintTarget(targets[0]) + [NEWLINE] + PrintTargets(targets[1..])
  }

  function PrintRequestLine(token: Bytes, count: nat): Bytes {
    Verb() + [SPACE] + (Dec(PROTOCOL_VERSION) + [SPACE] + (token + [SPACE] + Dec(count)))
  }

  function PrintRequest(token: Bytes, targets: seq<Target>): Bytes {
    PrintRequestLine(token, |targets|) + [NEWLINE] + PrintTargets(targets)
  }

  /** What a token and a number of paths must satisfy to be carried by the protocol. */
  predicate Sendable(token: Bytes, count: nat) {
    && token != [] && Free(token, SPACE) && Free(token, NEWLINE) && ValidUtf8(token)
    && count <= 256
    && |token| + |Dec(count)| + 11 < 4096
  }

  lemma DigitsAreText(b: Bytes)
    requires Digits(b)
    ensures ValidUtf8(b) && Free(b, SPACE) && Free(b, NEWLINE) && Free(b, AT)
  {
  }

  lemma VerbIsText()
    ensures ValidUtf8(Verb()) && Free(Verb(), SPACE) && Free(Verb(), NEWLINE) && |Verb()| == 7
  {
    AsciiIsUtf8(Verb());
  }

  lemma FreeAround(x: Bytes, c: Byte, y: Bytes, d: Byte)
    ensures Free(x + [c] + y, d) <==> Free(x, d) && c != d && Free(y, d)
  {
    var b := x + [c] + y;
    if Free(b, d) {
      assert b[|x|] == c;
      forall i | 0 <= i < |x| ensures x[i] != d {
        assert b[i] == x[i];
      }
      forall i | 0 <= i < |y| ensures y[i] != d {
        assert b[|x| + 1 + i] == y[i];
      }
    }
  }

  lemma RequestLineIsText(token: Bytes, count: nat)
    ensures |PrintRequestLine(token, count)| == |token| + |Dec(count)| + 11
    ensures ValidUtf8(PrintRequestLine(token, count)) <==> ValidUtf8(token)
    ensures Free(PrintRequestLine(token, count), NEWLINE) <==> Free(token, NEWLINE)
  {
    hide ValidUtf8;
    VerbIsText();
    var one := Dec(PROTOCOL_VERSION);
    DigitsAreText(one);
    DigitsAreText(Dec(count));
    var inner := token + [SPACE] + Dec(count);
    var middle := one + [SPACE] + inner;
    Utf8Around(token, SPACE, Dec(count));
    Utf8Around(one, SPACE, inner);
    Utf8Around(Verb(), SPACE, middle);
    FreeAround(token, SPACE, Dec(count), NEWLINE);
    FreeAround(one, SPACE, inner, NEWLINE);
    FreeAround(Verb(), SPACE, middle, NEWLINE);
    assert |one| == 1;
  }

  lemma RequestLineRoundTrips(token: Bytes, count: nat)
    requires token != [] && Free(token, SPACE) && count <= MAX_PATHS
    ensures ParseRequestLine(PrintRequestLine(token, count)) == Ok((token, count))
  {
    hide Cut, ParseUint;
    VerbIsText();
    var one := Dec(PROTOCOL_VERSION);
    DigitsAreText(one);
    var inner := token + [SPACE] + Dec(count);
    CutAt(token, SPACE, Dec(count));
    CutAt(one, SPACE, inner);
    CutAt(Verb(), SPACE, one + [SPACE] + inner);
    ParseUintOfDec(PROTOCOL_VERSION, U32_LIMIT);
    ParseUintOfDec(count, U64_LIMIT);
  }

  /** Every accepted first line names a token and a count that could be sent again. */
  lemma RequestLineSound(line: Bytes)
    requires ParseRequestLine(line).Ok?
    requires Free(line, NEWLINE) && ValidUtf8(line) && |line| < MAX_LINE_BYTES
    ensures Sendable(ParseRequestLine(line).value.0, ParseRequestLine(line).value.1)
  {
    hide Cut, ParseUint, ValidUtf8;
    var (verb, afterVerb) := Cut(line, SPACE).value;
    var (version, afterVersion) := Cut(afterVerb, SPACE).value;
    var (token, count) := Cut(afterVersion, SPACE).value;
    VerbIsText();
    Utf8Around(verb, SPACE, afterVerb);
    Utf8Around(version, SPACE, afterVersion);
    Utf8Around(token, SPACE, count);
    FreeAround(verb, SPACE, afterVerb, NEWLINE);
    FreeAround(version, SPACE, afterVersion, NEWLINE);
    FreeAround(token, SPACE, count, NEWLINE);
    ParseUintIsNoShorter(count, U64_LIMIT);
    ParseUintIsNoShorter(version, U32_LIMIT);
  }

  lemma CharsOfPath(path: SecretPath)
    ensures AsChars(PathBytes(path)) == path
    ensures Free(PathBytes(path), AT) && Free(PathBytes(path), NEWLINE) && ValidUtf8(PathBytes(path))
  {
    hide ValidPath;
    PathIsAscii(path);
    AsciiIsUtf8(PathBytes(path));
  }

  lemma TargetIsText(t: Target)
    ensures Free(PrintTarget(t), NEWLINE) && ValidUtf8(PrintTarget(t)) && |PrintTarget(t)| < MAX_LINE_BYTES
  {
    hide ValidUtf8, Split;
    CharsOfPath(t.path);
    if t.version.Some? {
      var v := Dec(t.version.value);
      DigitsAreText(v);
      VersionIsShort(t.version.value);
      assert PrintTarget(t) == PathBytes(t.path) + [AT] + v;
      Utf8Around(PathBytes(t.path), AT, v);
      FreeAround(PathBytes(t.path), AT, v, NEWLINE);
    } else {
      assert PrintTarget(t) == PathBytes(t.path);
    }
  }

  lemma TargetRoundTrips(t: Target)
    ensures ParseTarget(PrintTarget(t)) == Ok(t)
  {
    hide ValidUtf8, CutLast, ParseUint, Split;
    CharsOfPath(t.path);
    var path := PathBytes(t.path);
    if t.version.Some? {
      var v := Dec(t.version.value);
      DigitsAreText(v);
      assert PrintTarget(t) == path + [AT] + v;
      CutLastAt(path, AT, v);
      ParseUintOfDec(t.version.value, U32_LIMIT);
    } else {
      assert PrintTarget(t) == path;
      CutLastOfFree(path, AT);
    }
  }

  lemma OneTargetIsRead(t: Target, after: Bytes, count: nat, sofar: seq<Target>)
    ensures ReadTargets(PrintTarget(t) + [NEWLINE] + after, count + 1, sofar) == ReadTargets(after, count, sofar + [t])
  {
    hide ParseTarget, PrintTarget, NextLine, ValidUtf8, Split;
    TargetIsText(t);
    LineIsRead(PrintTarget(t), after);
    TargetRoundTrips(t);
  }

  lemma {:induction false} TargetsRoundTrip(targets: seq<Target>, sofar: seq<Target>, rest: Bytes)
    ensures ReadTargets(PrintTargets(targets) + rest, |targets|, sofar) == (Ok(sofar + targets), rest)
  {
    hide ParseTarget, PrintTarget, NextLine, ValidPath;
    if targets == [] {
      assert [] + rest == rest && sofar + [] == sofar;
    } else {
      hide ReadTargets;
      var t := targets[0];
      var after := PrintTargets(targets[1..]) + rest;
      assert PrintTargets(targets) + rest == PrintTarget(t) + [NEWLINE] + after;
      OneTargetIsRead(t, after, |targets| - 1, sofar);
      TargetsRoundTrip(targets[1..], sofar + [t], rest);
      assert sofar + [t] + targets[1..] == sofar + targets;
    }
  }

  /**
   * A printed request is read back, with nothing consumed beyond it, exactly when its token is non-empty valid
   * text without space or newline, it asks for at most 256 paths, and its first line is under the cap.
   */
  lemma RequestRoundTrips(token: Bytes, targets: seq<Target>, rest: Bytes)
    ensures Parse(PrintRequest(token, targets) + rest) == (Ready(token, targets), rest)
      <==> Sendable(token, |targets|)
  {
    hide ParseRequestLine, PrintRequestLine, ValidUtf8, NextLine, ReadTargets;
    var stream := PrintRequest(token, targets) + rest;
    if Sendable(token, |targets|) {
      var line := PrintRequestLine(token, |targets|);
      assert stream == line + [NEWLINE] + (PrintTargets(targets) + rest);
      RequestLineIsText(token, |targets|);
      LineIsRead(line, PrintTargets(targets) + rest);
      RequestLineRoundTrips(token, |targets|);
      TargetsRoundTrip(targets, [], rest);
      assert [] + targets == targets;
    } else if Parse(stream).0.Ready? {
      ReadyIsSendable(stream);
    }
  }

  // ----- what an accepted request is -----

  lemma {:induction false} TargetsRead(s: Bytes, count: nat, sofar: seq<Target>, more: Bytes)
    requires ReadTargets(s, count, sofar).0.Ok?
    ensures var (targets, rest) := ReadTargets(s, count, sofar);
      && |targets.value| == |sofar| + count
      && |rest| <= |s| <= |rest| + MAX_LINE_BYTES * count
      && s[|s| - |rest|..] == rest
      && ReadTargets(s + more, count, sofar) == (targets, rest + more)
    decreases count
  {
    hide ParseTarget, NextLine, ValidUtf8;
    if count > 0 {
      var (line, rest) := NextLine(s);
      ReadIsLine(s);
      LineIsRead(line.text, rest + more);
      assert s + more == line.text + [NEWLINE] + (rest + more);
      TargetsRead(rest, count - 1, sofar + [ParseTarget(line.text).value], more);
      assert s[|s| - |rest|..] == rest;
    }
  }

  /** An accepted request can always be sent again as it was understood. */
  lemma ReadyIsSendable(s: Bytes)
    requires Parse(s).0.Ready?
    ensures Sendable(Parse(s).0.token, |Parse(s).0.targets|)
  {
    hide ParseRequestLine, ValidUtf8, NextLine, ReadTargets;
    var (line, rest) := NextLine(s);
    ReadIsLine(s);
    RequestLineSound(line.text);
    TargetsRead(rest, ParseRequestLine(line.text).value.1, [], []);
  }

  /**
   * An accepted request is bounded: at most 257 capped lines are consumed, and nothing that follows them,
   * present or not, has any influence on what was understood.
   */
  lemma AcceptedRequestIsSelfDelimiting(s: Bytes, more: Bytes)
    requires Parse(s).0.Ready?
    ensures var (request, rest) := Parse(s);
      && |s| - |rest| <= MAX_LINE_BYTES * (1 + |request.targets|) <= MAX_LINE_BYTES * (1 + MAX_PATHS)
      && |rest| <= |s| && s[|s| - |rest|..] == rest
      && Parse(s + more) == (request, rest + more)
  {
    hide ParseRequestLine, ValidUtf8, NextLine, ReadTargets;
    var (line, rest) := NextLine(s);
    ReadIsLine(s);
    LineIsRead(line.text, rest + more);
    assert s + more == line.text + [NEWLINE] + (rest + more);
    assert s[|s| - |rest|..] == rest;
    TargetsRead(rest, ParseRequestLine(line.text).value.1, [], more);
  }

  /** Whatever spelling a request arrived in, the printed form of what was understood means the same. */
  lemma ReprintingIsUnderstood(s: Bytes)
    requires Parse(s).0.Ready?
    ensures var (request, rest) := Parse(s);
      Parse(PrintRequest(request.token, request.targets) + rest) == (request, rest)
  {
    hide Parse, PrintRequest, Sendable;
    ReadyIsSendable(s);
    var (request, rest) := Parse(s);
    RequestRoundTrips(request.token, request.targets, rest);
  }

  // ----- exactly what is accepted, and what is not -----

  function FourFields(verb: Bytes, version: Bytes, token: Bytes, number: Bytes): Bytes {
    verb + [SPACE] + (version + [SPACE] + (token + [SPACE] + number))
  }

  lemma FieldsAreCut(verb: Bytes, version: Bytes, token: Bytes, number: Bytes)
    requires Free(verb, SPACE) && Free(version, SPACE) && Free(token, SPACE)
    ensures var first := Cut(FourFields(verb, version, token, number), SPACE);
      && first == Some((verb, version + [SPACE] + (token + [SPACE] + number)))
      && Cut(first.value.1, SPACE) == Some((version, token + [SPACE] + number))
      && Cut(token + [SPACE] + number, SPACE) == Some((token, number))
  {
    hide Cut;
    CutAt(token, SPACE, number);
    CutAt(version, SPACE, token + [SPACE] + number);
    CutAt(verb, SPACE, version + [SPACE] + (token + [SPACE] + number));
  }

  /**
   * A first line is accepted for a token and a count exactly when it is the verb, some spelling of 1, the token and
   * some spelling of the count, one space apart, with a token that is not empty and a count of at most 256.
   */
  lemma RequestLineMeans(line: Bytes, token: Bytes, count: nat)
    ensures ParseRequestLine(line) == Ok((token, count)) <==>
      && token != [] && Free(token, SPACE) && count <= 256
      && exists version, number ::
           Spells(version, 1) && Spells(number, count) && line == FourFields(Ascii("RESOLVE"), version, token, number)
  {
    hide Cut, ParseUint, Spells;
    VerbIsText();
    if ParseRequestLine(line) == Ok((token, count)) {
      var (verb, afterVerb) := Cut(line, SPACE).value;
      var (version, afterVersion) := Cut(afterVerb, SPACE).value;
      var number := Cut(afterVersion, SPACE).value.1;
      ParseUintMeans(version, U32_LIMIT, 1);
      ParseUintMeans(number, U64_LIMIT, count);
      assert line == FourFields(Verb(), version, token, number);
    }
    if version, number :|
      token != [] && Free(token, SPACE) && count <= 256
      && Spells(version, 1) && Spells(number, count) && line == FourFields(Ascii("RESOLVE"), version, token, number)
    {
      SpellingsAreText(version, 1);
      FieldsAreCut(Verb(), version, token, number);
      ParseUintMeans(version, U32_LIMIT, 1);
      ParseUintMeans(number, U64_LIMIT, count);
    }
  }

  /** What is wrong with a line of four fields is told in the order of the fields, an empty token first. */
  lemma RequestLineRefusals(verb: Bytes, version: Bytes, token: Bytes, number: Bytes, v: nat, n: nat)
    requires Free(verb, SPACE) && Free(version, SPACE) && Free(token, SPACE)
    ensures var r := ParseRequestLine(FourFields(verb, version, token, number));
      && (token == [] ==> r == Err(MalformedRequestLine))
      && (token != [] && verb != Ascii("RESOLVE") ==> r == Err(UnknownVerb))
      && (token != [] && verb == Ascii("RESOLVE") ==>
            && ((forall u: nat :: u < U32_LIMIT ==> !Spells(version, u)) ==> r == Err(MalformedProtocolVersion))
            && (Spells(version, v) && v != 1 && v < U32_LIMIT ==> r == Err(UnsupportedProtocolVersion))
            && (Spells(version, 1) && (forall u: nat :: u < U64_LIMIT ==> !Spells(number, u)) ==> r == Err(MalformedPathCount))
            && (Spells(version, 1) && Spells(number, n) && 256 < n < U64_LIMIT ==> r == Err(TooManyPaths)))
  {
    hide Cut, ParseUint, Spells;
    FieldsAreCut(verb, version, token, number);
    var (x, y) := (ParseUint(version, U32_LIMIT), ParseUint(number, U64_LIMIT));
    ParseUintMeans(version, U32_LIMIT, if x.Some? then x.value else v);
    ParseUintMeans(version, U32_LIMIT, v);
    ParseUintMeans(version, U32_LIMIT, 1);
    ParseUintMeans(number, U64_LIMIT, if y.Some? then y.value else n);
    ParseUintMeans(number, U64_LIMIT, n);
  }

  lemma BytesOfPath(b: Bytes)
    requires ValidPath(AsChars(b))
    ensures PathBytes(AsChars(b)) == b
  {
    hide ValidPath;
    PathIsAscii(AsChars(b));
  }

  /** A target line is accepted exactly when it is a path, alone or with an at sign and some spelling of a version. */
  lemma TargetMeans(line: Bytes, t: Target)
    ensures ParseTarget(line) == Ok(t) <==>
      match t.version
      case None => line == PathBytes(t.path)
      case Some(v) => exists raw :: Spells(raw, v) && line == PathBytes(t.path) + [AT] + raw
  {
    hide CutLast, ParseUint, Spells, ValidPath;
    CharsOfPath(t.path);
    var path := PathBytes(t.path);
    if ParseTarget(line) == Ok(t) {
      var pinned := CutLast(line, AT);
      BytesOfPath(if pinned.Some? then pinned.value.0 else line);
      if pinned.Some? {
        ParseUintMeans(pinned.value.1, U32_LIMIT, t.version.value);
      }
    }
    match t.version {
      case None =>
        CutLastOfFree(path, AT);
      case Some(v) =>
        if raw :| Spells(raw, v) && line == path + [AT] + raw {
          SpellingsAreText(raw, v);
          CutLastAt(path, AT, raw);
          ParseUintMeans(raw, U32_LIMIT, v);
        }
    }
  }

  /** Version 0 is refused, however it is spelled. */
  lemma VersionZeroIsRefused(path: SecretPath, raw: Bytes)
    requires Spells(raw, 0)
    ensures ParseTarget(PathBytes(path) + [AT] + raw) == Err(MalformedVersion)
  {
    hide CutLast, ParseUint, Spells, ValidPath;
    CharsOfPath(path);
    SpellingsAreText(raw, 0);
    CutLastAt(PathBytes(path), AT, raw);
    ParseUintMeans(raw, U32_LIMIT, 0);
  }

  // ----- the answer -----

  datatype Answer = Values(items: seq<(Version, Bytes)>) | Refused(message: Bytes) | Garbled

  function ValueHeader(item: (Version, Bytes)): Bytes {
    Ascii("VALUE") + [SPACE] + (Dec(item.0) + [SPACE] + Dec(|item.1|))
  }

  function Block(item: (Version, Bytes)): Bytes {
    ValueHeader(item) + [NEWLINE] + item.1
  }

  function Blocks(items: seq<(Version, Bytes)>): Bytes {
    if items == [] then [] else Block(items[0]) + Blocks(items[1..])
  }

  function ErrorLine(message: Bytes): Bytes {
    Ascii("ERROR ") + message + [NEWLINE]
  }

  /** The write side of a connection. */
  class Writer {
    var written: Bytes

    constructor ()
      ensures written == []
    {
      written := [];
    }

    method WriteAll(b: Bytes)
      modifies this
      ensures written == old(written) + b
    {
      written := written + b;
    }
  }

  /** The success half of `respond`. */
  method RespondValues(writer: Writer, items: seq<(Version, Bytes)>)
    modifies writer
    ensures writer.written == old(writer.written) + Blocks(items)
  {
    hide ValueHeader;
    var i := 0;
    assert items[0..] == items;
    while i < |items|
      invariant i <= |items|
      invariant writer.written + Blocks(items[i..]) == old(writer.written) + Blocks(items)
    {
      ghost var before := writer.written;
      assert items[i..][1..] == items[i + 1..];
      writer.WriteAll(ValueHeader(items[i]) + [NEWLINE]);
      writer.WriteAll(items[i].1);
      assert writer.written == before + Block(items[i]);
      assert before + Blocks(items[i..]) == writer.written + Blocks(items[i + 1..]);
      i := i + 1;
    }
    assert Blocks(items[i..]) == [];
  }

  /** A client for `count` more blocks: a header line of three fields, then exactly the announced bytes. */
  function ReadAnswer(s: Bytes, count: nat, sofar: seq<(Version, Bytes)>): (Answer, Bytes)
    decreases count
  {
    if count == 0 then (Values(sofar), s)
    else
      var header := Cut(s, NEWLINE);
      if header.None? then (Garbled, s)
      else
        var (line, body) := header.value;
        if Ascii("ERROR ") <= line then (Refused(line[6..]), body)
        else
          var first := Cut(line, SPACE);
          var second := if first.Some? then Cut(first.value.1, SPACE) else None;
          if second.None? || first.value.0 != Ascii("VALUE") then (Garbled, body)
          else
            var version := ParseUint(second.value.0, U32_LIMIT);
            var length := ParseUint(second.value.1, |body| + 1);
            if version.None? || version.value == 0 || length.None? then (Garbled, body)
            else ReadAnswer(body[length.value..], count - 1, sofar + [(version.value, body[..length.value])])
  }

  lemma WordsAreText()
    ensures |Ascii("VALUE")| == 5 && |Ascii("ERROR ")| == 6
    ensures Ascii("VALUE")[0] == 86 && Ascii("ERROR ")[0] == 69
    ensures Free(Ascii("VALUE"), SPACE) && Free(Ascii("VALUE"), NEWLINE) && Free(Ascii("ERROR "), NEWLINE)
  {
  }

  lemma HeaderIsRead(item: (Version, Bytes), rest: Bytes)
    ensures Cut(Block(item) + rest, NEWLINE) == Some((ValueHeader(item), item.1 + rest))
    ensures !(Ascii("ERROR ") <= ValueHeader(item))
    ensures var first := Cut(ValueHeader(item), SPACE);
      && first.Some? && first.value.0 == Ascii("VALUE")
      && Cut(first.value.1, SPACE) == Some((Dec(item.0), Dec(|item.1|)))
  {
    hide Cut, Ascii;
    WordsAreText();
    var (v, n) := (Dec(item.0), Dec(|item.1|));
    DigitsAreText(v);
    DigitsAreText(n);
    CutAt(v, SPACE, n);
    CutAt(Ascii("VALUE"), SPACE, v + [SPACE] + n);
    FreeAround(v, SPACE, n, NEWLINE);
    FreeAround(Ascii("VALUE"), SPACE, v + [SPACE] + n, NEWLINE);
    CutAt(ValueHeader(item), NEWLINE, item.1 + rest);
    assert Block(item) + rest == ValueHeader(item) + [NEWLINE] + (item.1 + rest);
    assert ValueHeader(item)[0] == 86;
  }

  lemma OneValueIsRead(item: (Version, Bytes), after: Bytes, count: nat, sofar: seq<(Version, Bytes)>)
    ensures ReadAnswer(Block(item) + after, count + 1, sofar) == ReadAnswer(after, count, sofar + [item])
  {
    hide Cut, Block, ValueHeader, ParseUint, Ascii;
    HeaderIsRead(item, after);
    var body := item.1 + after;
    ParseUintOfDec(item.0, U32_LIMIT);
    ParseUintOfDec(|item.1|, |body| + 1);
    assert body[..|item.1|] == item.1 && body[|item.1|..] == after;
  }

  /** Blocks are self-delimiting: whatever bytes the values hold, the client gets every one back, in order. */
  lemma {:induction false} ValuesRoundTrip(items: seq<(Version, Bytes)>, sofar: seq<(Version, Bytes)>, rest: Bytes)
    ensures ReadAnswer(Blocks(items) + rest, |items|, sofar) == (Values(sofar + items), rest)
  {
    hide ReadAnswer, Block, Cut, ParseUint, Ascii;
    if items == [] {
      NothingIsRead(rest, sofar);
      assert [] + rest == rest && sofar + [] == sofar;
    } else {
      var (item, others) := (items[0], items[1..]);
      var after := Blocks(others) + rest;
      assert Blocks(items) + rest == Block(item) + after;
      OneValueIsRead(item, after, |others|, sofar);
      ValuesRoundTrip(others, sofar + [item], rest);
      assert sofar + [item] + others == sofar + items;
    }
  }

  lemma NothingIsRead(s: Bytes, sofar: seq<(Version, Bytes)>)
    ensures ReadAnswer(s, 0, sofar) == (Values(sofar), s)
  {
  }

  lemma RefusalRoundTrips(message: Bytes, count: nat, rest: Bytes)
    requires count > 0 && Free(message, NEWLINE)
    ensures ReadAnswer(ErrorLine(message) + rest, count, []) == (Refused(message), rest)
  {
    hide Cut, Ascii;
    WordsAreText();
    var line := Ascii("ERROR ") + message;
    assert Free(line, NEWLINE) by {
      forall i | 0 <= i < |line| ensures line[i] != NEWLINE {
        assert line[i] == if i < 6 then Ascii("ERROR ")[i] else message[i - 6];
      }
    }
    assert ErrorLine(message) + rest == line + [NEWLINE] + rest;
    CutAt(line, NEWLINE, rest);
    assert line[6..] == message;
  }

  // ----- a whole exchange -----

  function DeniedMessage(): Bytes { Ascii("not found or not permitted") }
  function InternalMessage(): Bytes { Ascii("internal error") }

  /** Store errors a caller may cause; everything else is the daemon's own fault. */
  predicate IsClientError(error: SecretTables.StoreError) {
    error == SecretTables.NotFound || error == SecretTables.AlreadyExists || error == SecretTables.InvalidVersion
  }

  function Message(failure: Failure): Bytes {
    if failure.DeniedBy? || (failure.Store? && IsClientError(failure.error)) then DeniedMessage() else InternalMessage()
  }

  /** The internal error is what a client gets exactly when the store is broken or the batch cannot be recorded. */
  lemma InternalErrorExactly(failure: Failure)
    ensures Message(failure) == Ascii("internal error") <==>
      || failure == Audit
      || failure == Store(SecretTables.CorruptStore) || failure == Store(SecretTables.Crypto)
      || failure == Store(SecretTables.Sqlite)
    ensures Message(failure) == Ascii("internal error") || Message(failure) == Ascii("not found or not permitted")
  {
    MessagesAreText();
  }

  function ItemsOf(resolved: seq<Resolved>): (items: seq<(Version, Bytes)>)
    ensures |items| == |resolved|
    ensures forall i :: 0 <= i < |items| ==> items[i] == (resolved[i].version, resolved[i].plaintext)
  {
    seq(|resolved|, i requires 0 <= i < |resolved| => (resolved[i].version, resolved[i].plaintext))
  }

  function Respond(result: Result<seq<Resolved>, Failure>): Bytes {
    match result
    case Ok(resolved) => Blocks(ItemsOf(resolved))
    case Err(failure) => ErrorLine(Message(failure))
  }

  function Times(tick: nat -> int, count: nat): (clock: seq<int>)
    ensures |clock| == count
  {
    seq(count, i requires 0 <= i < count => tick(i))
  }

  /** What the audit log is told of a broken framing rule. */
  function Reason(reason: Violation): Text {
    match reason
    case RequestTruncated => Ascii("request truncated")
    case BadLine => Ascii("line too long or not valid UTF-8")
    case MalformedPath => Ascii("malformed path")
    case MalformedVersion => Ascii("malformed version")
    case _ => RequestLineReason(reason)
  }

  function RequestLineReason(reason: Violation): Text {
    match reason
    case UnknownVerb => Ascii("unknown verb")
    case MalformedProtocolVersion => Ascii("malformed protocol version")
    case UnsupportedProtocolVersion => Ascii("unsupported protocol version")
    case _ => PathCountReason(reason)
  }

  function PathCountReason(reason: Violation): Text {
    match reason
    case MalformedPathCount => Ascii("malformed path count")
    case TooManyPaths => Ascii("too many paths requested")
    case _ => Ascii("malformed request line")
  }

  /**
   * `handle`: the bytes a connection gets back, and the daemon after it. `sessionOf` gives what each token
   * presents; `peer` is who connected.
   */
  function Handle(
    c: Daemon.Crypto, d: Daemon.State, peer: Daemon.Caller, sessionOf: Bytes -> Session,
    s: Bytes, start: int, tick: nat -> int): (Bytes, Daemon.State)
  {
    match Parse(s).0
    case Disconnected => ([], d)
    case Violated(reason) =>
      (ErrorLine(DeniedMessage()),
       Daemon.Logged(c, d, Daemon.RefusalEntry(peer, None, AuditDetail(ProtocolViolation(Reason(reason))))))
    case Ready(token, targets) =>
      var (result, d') := ResolveSecrets(c, sessionOf(token), targets, start, Times(tick, |targets|));
      (Respond(result), d')
  }

  lemma MessagesAreText()
    ensures Free(DeniedMessage(), NEWLINE) && Free(InternalMessage(), NEWLINE)
    ensures DeniedMessage() != InternalMessage()
  {
  }

  function Understood(result: Result<seq<Resolved>, Failure>): Answer {
    match result
    case Ok(resolved) => Values(ItemsOf(resolved))
    case Err(failure) => Refused(Message(failure))
  }

  lemma ResponseIsUnderstood(result: Result<seq<Resolved>, Failure>, count: nat)
    requires count > 0 && (result.Ok? ==> |result.value| == count)
    ensures ReadAnswer(Respond(result), count, []).0 == Understood(result)
  {
    hide ReadAnswer, ErrorLine, Blocks, DeniedMessage, InternalMessage;
    match result
    case Ok(resolved) =>
      var items := ItemsOf(resolved);
      ValuesRoundTrip(items, [], []);
      assert Blocks(items) + [] == Blocks(items) && [] + items == items;
    case Err(failure) =>
      MessagesAreText();
      RefusalRoundTrips(Message(failure), count, []);
      assert ErrorLine(Message(failure)) + [] == ErrorLine(Message(failure));
  }

  /** A whole exchange loses nothing: the client ends with what the batch gave, or with its refusal. */
  lemma ClientGetsTheBatch(
    c: Daemon.Crypto, d: Daemon.State, peer: Daemon.Caller, sessionOf: Bytes -> Session,
    token: Bytes, targets: seq<Target>, start: int, tick: nat -> int)
    requires Sendable(token, |targets|) && targets != []
    ensures var (result, d') := ResolveSecrets(c, sessionOf(token), targets, start, Times(tick, |targets|));
      var (bytes, d'') := Handle(c, d, peer, sessionOf, PrintRequest(token, targets), start, tick);
      ReadAnswer(bytes, |targets|, []).0 == Understood(result) && d'' == d'
  {
    hide Parse, PrintRequest, Sendable, ReadAnswer, Respond, Understood, ResolveEach, Check, AuditLog.Append;
    RequestRoundTrips(token, targets, []);
    assert PrintRequest(token, targets) + [] == PrintRequest(token, targets);
    var clock := Times(tick, |targets|);
    ResolveEachMeans(sessionOf(token), targets, clock);
    ResponseIsUnderstood(ResolveSecrets(c, sessionOf(token), targets, start, clock).0, |targets|);
  }

  /**
   * In a coherent daemon whose audit log can still grow, a client ends with the very values that were written, one
   * for each path it asked for, or with the one refusal message: no request can draw the internal error.
   */
  lemma ClientGetsWhatWasWritten(
    c: Daemon.Crypto, w: Daemon.World, peer: Daemon.Caller, sessionOf: Bytes -> Session,
    token: Bytes, targets: seq<Target>, start: int, tick: nat -> int)
    requires Daemon.Coherent(c, w) && sessionOf(token).daemon == w.daemon
    requires |w.daemon.disk.log.rows| < I64_MAX
    requires Sendable(token, |targets|) && targets != []
    ensures
      match ReadAnswer(Handle(c, w.daemon, peer, sessionOf, PrintRequest(token, targets), start, tick).0, |targets|, []).0
      case Values(items) =>
        |items| == |targets| && forall i :: 0 <= i < |items| ==>
          && AsksFor(w.daemon, targets[i], items[i].0)
          && (targets[i].path, items[i].0) in w.written
          && items[i].1 == w.written[(targets[i].path, items[i].0)]
      case Refused(message) => message == DeniedMessage()
      case Garbled => false
  {
    hide Parse, PrintRequest, Sendable, ReadAnswer, Handle, Daemon.Coherent, ResolveSecrets, DeniedMessage, InternalMessage;
    ClientGetsTheBatch(c, w.daemon, peer, sessionOf, token, targets, start, tick);
    BatchIsFaithful(c, w, sessionOf(token), targets, start, Times(tick, |targets|));
  }

  /** Whatever bytes a connection sends, the daemon is coherent after it, and at most one entry longer. */
  lemma AnyConnectionKeepsCoherence(
    c: Daemon.Crypto, w: Daemon.World, peer: Daemon.Caller, sessionOf: Bytes -> Session,
    s: Bytes, start: int, tick: nat -> int)
    requires Daemon.Coherent(c, w) && forall token :: sessionOf(token).daemon == w.daemon
    ensures var d := Handle(c, w.daemon, peer, sessionOf, s, start, tick).1;
      && Daemon.Coherent(c, w.(daemon := d))
      && Trail.Kept(w.daemon.disk.log, d.disk.log) && |d.disk.log.rows| <= |w.daemon.disk.log.rows| + 1
  {
    hide Parse, Daemon.Coherent, Daemon.Logged, ResolveSecrets, Respond, Trail.Kept, Daemon.RefusalEntry, Reason, AuditDetail;
    match Parse(s).0
    case Disconnected => Trail.NothingLost(w.daemon.disk.log);
    case Violated(reason) =>
      var e := Daemon.Refused(peer, None, AuditDetail(ProtocolViolation(Reason(reason))));
      Daemon.StepSound(c, w, e);
      Trail.StepKeeps(c, w, e);
    case Ready(token, targets) =>
      var session := sessionOf(token);
      var clock := Times(tick, |targets|);
      BatchIsAStep(c, session, w.written, targets, start, clock);
      var e := BatchEvent(session, targets, ResolveSecrets(c, session, targets, start, clock).0);
      Daemon.StepSound(c, w, e);
      Trail.StepKeeps(c, w, e);
      hide Daemon.Step;
  }

  /** A broken framing rule draws the same refusal as any denial, and one entry that names the rule. */
  lemma ViolationIsAnswered(
    c: Daemon.Crypto, w: Daemon.World, peer: Daemon.Caller, sessionOf: Bytes -> Session,
    s: Bytes, start: int, tick: nat -> int, count: nat)
    requires Daemon.Coherent(c, w) && |w.daemon.disk.log.rows| < I64_MAX
    requires Parse(s).0.Violated? && count > 0
    ensures var (bytes, d) := Handle(c, w.daemon, peer, sessionOf, s, start, tick);
      && ReadAnswer(bytes, count, []).0 == Refused(DeniedMessage())
      && Trail.Adds(w.daemon.disk.log, d.disk.log, AuditEntries.Entry(
           peer.now, None, Some(peer.uid), Some(peer.pid), AuditEntries.AuthFailure, None, None, AuditEntries.Denied,
           Some(Reason(Parse(s).0.reason))))
  {
    hide Parse, Daemon.Coherent, Daemon.Logged, ReadAnswer, ErrorLine, Reason, Trail.Adds, DeniedMessage, InternalMessage;
    MessagesAreText();
    RefusalRoundTrips(DeniedMessage(), count, []);
    assert ErrorLine(DeniedMessage()) + [] == ErrorLine(DeniedMessage());
    Trail.OtherEventsAreRecorded(c, w, Daemon.Refused(peer, None, Reason(Parse(s).0.reason)));
  }

  /** A peer that closes without a word gets nothing and leaves no trace. */
  lemma SilenceIsIgnored(
    c: Daemon.Crypto, d: Daemon.State, peer: Daemon.Caller, sessionOf: Bytes -> Session, start: int, tick: nat -> int)
    ensures Handle(c, d, peer, sessionOf, [], start, tick) == ([], d)
    ensures forall s :: Parse(s).0.Disconnected? ==> s == []
  {
    forall s | Parse(s).0.Disconnected? ensures s == [] {
      hide ValidUtf8, ParseRequestLine;
    }
  }
}
