/**
 * The lines `ExportJbeam.execute` writes to a `.jbeam` file (export_jbeam.py),
 * as rows, and the text each row stands for. The file's content is the
 * concatenation of its rows' texts.
 */
module Output {
  import opened Wrappers
  import opened Sequences
  import opened Decimal

  /**
   * A section header; a node with its printed coordinates (thousandths); a
   * beam between two named nodes; or the start of a beam line, which is all
   * that is written when the second endpoint cannot be found.
   */
  datatype Row =
    | Header(title: string)
    | NodeRow(name: string, x: int, y: int, z: int)
    | BeamRow(first: string, second: string)
    | BeamStartRow(first: string)

  const NodesHeader := Header("//--Nodes--")
  const BeamsHeader := Header("//--Beams--")

  /**
   * The characters the exporter writes for one row. Every row but the start
   * of a beam line ends its line.
   */
  function Render(row: Row): (r: string)
    ensures |r| > 0 && (r[|r| - 1] == '\n' <==> !row.BeamStartRow?)
  {
    match row
    case Header(title) => title + "\n"
    case NodeRow(name, x, y, z) =>
      "[\"" + name + "\"," + FormatThousandths(x) + "," + FormatThousandths(y) + "," + FormatThousandths(z) + "],\n"
    case BeamRow(a, b) => "[\"" + a + "\"" + "," + "\"" + b + "\"" + "],\n"
    case BeamStartRow(a) => "[\"" + a + "\"" + ","
  }

  /**
   * What is written for an edge whose second endpoint is missing is exactly
   * the text of its whole line up to the second name.
   */
  lemma BeamStartIsPrefix(a: string, b: string)
    ensures Render(BeamRow(a, b)) == Render(BeamStartRow(a)) + "\"" + b + "\"],\n"
  {
  }

  /** Reads three coordinates separated by commas. */
  function ParseFields(s: string): Option<(int, int, int)>
  {
    match Split(s, ',')
    case None => None
    case Some((fx, rest)) =>
      match Split(rest, ',')
      case None => None
      case Some((fy, fz)) =>
        match (ParseThousandths(fx), ParseThousandths(fy), ParseThousandths(fz))
        case (Some(x), Some(y), Some(z)) => Some((x, y, z))
        case _ => None
  }

  /** Reads a node line: `["`, then the name and coordinates, then `],` and the newline. */
  function ParseNodeRow(line: string): Option<(string, int, int, int)>
  {
    if |line| >= 5 && line[..2] == "[\"" && line[|line| - 3..] == "],\n" then ParseNodeBody(line[2..|line| - 3])
    else None
  }

  /** The inside of a node line: the name up to the first quote, then `",` and three coordinates. */
  function ParseNodeBody(body: string): Option<(string, int, int, int)>
  {
    match Split(body, '"')
    case None => None
    case Some((name, rest)) =>
      if |rest| == 0 || rest[0] != ',' then None
      else
        match ParseFields(rest[1..])
        case None => None
        case Some((x, y, z)) => Some((name, x, y, z))
  }

  /** Reads a beam line: `["`, then the two names, then `"],` and the newline. */
  function ParseBeamRow(line: string): Option<(string, string)>
  {
    if |line| >= 6 && line[..2] == "[\"" && line[|line| - 4..] == "\"],\n" then ParseBeamBody(line[2..|line| - 4])
    else None
  }

  /** The inside of a beam line: the first name up to the first quote, then `","` and the second name. */
  function ParseBeamBody(body: string): Option<(string, string)>
  {
    match Split(body, '"')
    case None => None
    case Some((first, rest)) =>
      if |rest| >= 2 && rest[..2] == ",\"" then Some((first, rest[2..])) else None
  }

  lemma FieldsRoundTrip(fx: string, fy: string, fz: string, x: int, y: int, z: int)
    requires forall k :: 0 <= k < |fx| ==> fx[k] != ','
    requires forall k :: 0 <= k < |fy| ==> fy[k] != ','
    requires ParseThousandths(fx) == Some(x) && ParseThousandths(fy) == Some(y) && ParseThousandths(fz) == Some(z)
    ensures ParseFields(fx + [','] + (fy + [','] + fz)) == Some((x, y, z))
  {
    SplitAfter(fx, ',', fy + [','] + fz);
    SplitAfter(fy, ',', fz);
  }

  lemma NodeFrameRoundTrip(body: string)
    ensures ParseNodeRow("[\"" + body + "],\n") == ParseNodeBody(body)
  {
    var line := "[\"" + body + "],\n";
    assert line[..2] == "[\"";
    assert line[|line| - 3..] == "],\n";
    assert line[2..|line| - 3] == body;
  }

  lemma NodeBodyRoundTrip(name: string, fields: string, x: int, y: int, z: int)
    requires forall k :: 0 <= k < |name| ==> name[k] != '"'
    requires ParseFields(fields) == Some((x, y, z))
    ensures ParseNodeBody(name + ['"'] + ([','] + fields)) == Some((name, x, y, z))
  {
    SplitAfter(name, '"', [','] + fields);
    assert ([','] + fields)[1..] == fields;
  }

  lemma NodeLineShape(name: string, fx: string, fy: string, fz: string)
    ensures "[\"" + name + "\"," + fx + "," + fy + "," + fz + "],\n"
      == "[\"" + (name + ['"'] + ([','] + (fx + [','] + (fy + [','] + fz)))) + "],\n"
  {
  }

  lemma NodeTextRoundTrip(name: string, fx: string, fy: string, fz: string, x: int, y: int, z: int)
    requires forall k :: 0 <= k < |name| ==> name[k] != '"'
    requires forall k :: 0 <= k < |fx| ==> fx[k] != ','
    requires forall k :: 0 <= k < |fy| ==> fy[k] != ','
    requires ParseThousandths(fx) == Some(x) && ParseThousandths(fy) == Some(y) && ParseThousandths(fz) == Some(z)
    ensures ParseNodeRow("[\"" + name + "\"," + fx + "," + fy + "," + fz + "],\n") == Some((name, x, y, z))
  {
    var fields := fx + [','] + (fy + [','] + fz);
    var body := name + ['"'] + ([','] + fields);
    NodeLineShape(name, fx, fy, fz);
    FieldsRoundTrip(fx, fy, fz, x, y, z);
    NodeBodyRoundTrip(name, fields, x, y, z);
    NodeFrameRoundTrip(body);
  }

  /**
   * A node line reads back as its name and its three coordinates, when the
   * name holds no quote.
   */
  lemma NodeRowRoundTrip(name: string, x: int, y: int, z: int)
    requires forall k :: 0 <= k < |name| ==> name[k] != '"'
    ensures ParseNodeRow(Render(NodeRow(name, x, y, z))) == Some((name, x, y, z))
  {
    var fx, fy, fz := FormatThousandths(x), FormatThousandths(y), FormatThousandths(z);
    assert forall k :: 0 <= k < |fx| ==> fx[k] != ',';
    assert forall k :: 0 <= k < |fy| ==> fy[k] != ',';
    ParseFormatThousandths(x);
    ParseFormatThousandths(y);
    ParseFormatThousandths(z);
    NodeTextRoundTrip(name, fx, fy, fz, x, y, z);
  }

  lemma BeamFrameRoundTrip(body: string)
    ensures ParseBeamRow("[\"" + body + "\"],\n") == ParseBeamBody(body)
  {
    var line := "[\"" + body + "\"],\n";
    assert line[..2] == "[\"";
    assert line[|line| - 4..] == "\"],\n";
    assert line[2..|line| - 4] == body;
  }

  lemma BeamBodyRoundTrip(a: string, b: string)
    requires forall k :: 0 <= k < |a| ==> a[k] != '"'
    ensures ParseBeamBody(a + ['"'] + ([',', '"'] + b)) == Some((a, b))
  {
    SplitAfter(a, '"', [',', '"'] + b);
    assert ([',', '"'] + b)[..2] == ",\"";
    assert ([',', '"'] + b)[2..] == b;
  }

  /**
   * A beam line reads back as the names of its two nodes, when the first
   * name holds no quote.
   */
  lemma BeamRowRoundTrip(a: string, b: string)
    requires forall k :: 0 <= k < |a| ==> a[k] != '"'
    ensures ParseBeamRow(Render(BeamRow(a, b))) == Some((a, b))
  {
    var body := a + ['"'] + ([',', '"'] + b);
    assert Render(BeamRow(a, b)) == "[\"" + body + "\"],\n";
    BeamBodyRoundTrip(a, b);
    BeamFrameRoundTrip(body);
  }
}
