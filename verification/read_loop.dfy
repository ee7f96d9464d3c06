/** The read loop both C++ table headers use, once for the lines of a
    stream and once for the tokens of a line: call getline until it fails,
    skip the empty pieces, convert every other one and keep it, and let the
    first conversion that throws end the loop. */
module ReadLoop {
  import opened Wrappers
  import opened Delimited
  import opened NumParse

  /** The loop over the getline pieces: empty pieces are skipped, every
      other piece is converted in order, and the first piece that fails to
      convert ends the read with its error. */
  method ReadRows<T>(lines: seq<string>, rowParser: string -> Result<T, ParseError>)
    returns (r: Result<seq<T>, ParseError>)
    ensures r == MapResult(DropEmpty(lines), rowParser)
  {
    var data: seq<T> := [];
    var i := 0;
    while i < |lines|
      invariant 0 <= i <= |lines|
      invariant MapResult(DropEmpty(lines[..i]), rowParser) == Success(data)
    {
      var line := lines[i];
      if |line| > 0 {
        var parsed := rowParser(line);
        if parsed.Failure? {
          StreamFail(lines, i, rowParser);
          return Failure(parsed.error);
        }
      }
      StreamStep(lines, i, rowParser, data);
      if |line| > 0 {
        data := data + [rowParser(line).value];
      }
      i := i + 1;
    }
    assert lines[..i] == lines;
    r := Success(data);
  }

  /** One getline step of a read loop that skips empty pieces: an empty
      piece leaves what was read as it is, a parsed piece adds its value. */
  lemma StreamStep<T>(lines: seq<string>, i: nat, rowParser: string -> Result<T, ParseError>, acc: seq<T>)
    requires i < |lines|
    requires MapResult(DropEmpty(lines[..i]), rowParser) == Success(acc)
    requires |lines[i]| == 0 || rowParser(lines[i]).Success?
    ensures MapResult(DropEmpty(lines[..i + 1]), rowParser) ==
      Success(if |lines[i]| == 0 then acc else acc + [rowParser(lines[i]).value])
  {
    DropEmptyPrefix(lines, i);
    if |lines[i]| > 0 {
      MapResultSnoc(DropEmpty(lines[..i]), lines[i], rowParser);
    } else {
      assert DropEmpty(lines[..i]) + [] == DropEmpty(lines[..i]);
    }
  }

  /** A non-empty piece that fails to parse decides the outcome for the
      whole stream, whatever follows it. */
  lemma StreamFail<T>(lines: seq<string>, i: nat, rowParser: string -> Result<T, ParseError>)
    requires i < |lines|
    requires MapResult(DropEmpty(lines[..i]), rowParser).Success?
    requires |lines[i]| > 0 && rowParser(lines[i]).Failure?
    ensures MapResult(DropEmpty(lines), rowParser) == Failure(rowParser(lines[i]).error)
  {
    DropEmptyPrefix(lines, i);
    MapResultSnoc(DropEmpty(lines[..i]), lines[i], rowParser);
    MapResultFailurePrefix(DropEmpty(lines[..i + 1]), DropEmpty(lines[i + 1..]), rowParser);
  }
}
