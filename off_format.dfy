/** The OFF reader and writer of `utils/off_format.py`, over a file already
    split into lines (line terminators dropped; reading past the last line
    gives `""`, as `readline` does at end of file). Vertex coordinates stay
    tokens: whether a token is a float literal is the parameter `isFloat`,
    and the text of a vertex is the parameter `show`. */
module OffFormat {
  import opened Text
  import opened MeshTopology

  /** The exceptions `load_off` can raise on malformed input. */
  datatype LoadError = ValueError | IndexError

  datatype Outcome<T> = Ok(value: T) | Err(error: LoadError)

  /** What `load_off` returns: one row of tokens per vertex line and one
      row of indices per emitted triangle. */
  datatype Loaded = Loaded(vertices: seq<seq<string>>, faces: seq<seq<int>>)

  /** `file.readline()` at line `i`. */
  function Line(lines: seq<string>, i: nat): string
  {
    if i < |lines| then lines[i] else ""
  }

  /** `len(range(n))`. */
  function Repeats(n: int): nat
  {
    if n < 0 then 0 else n
  }

  /** `xs[i:j]` for `0 <= i <= j`: Python clamps both ends to the length. */
  function Slice<T>(xs: seq<T>, i: nat, j: nat): (r: seq<T>)
    requires i <= j
    ensures |r| <= j - i
    ensures |r| == if |xs| <= i then 0 else if |xs| <= j then |xs| - i else j - i
    ensures i + |r| <= |xs| ==> r == xs[i..i + |r|]
    ensures j <= |xs| ==> r == xs[i..j]
  {
    if |xs| <= i then [] else if |xs| <= j then xs[i..] else xs[i..j]
  }

  /** The header text that holds the counts, and the index of the line after
      it: the stripped first line is either exactly `OFF` (counts on the next
      line), `OFF` followed by the counts, or the counts alone. */
  function CountsLine(lines: seq<string>): (string, nat)
  {
    var first := Strip(Line(lines, 0));
    if StartsWith(first, "OFF") then
      if |first| == 3 then (Strip(Line(lines, 1)), 2) else (first[3..], 1)
    else (first, 1)
  }

  /** `numbers = list(map(int, line.split()))` followed by `numbers[0]` and
      `numbers[1]`. */
  function Counts(header: string): (r: Outcome<(int, int)>)
    ensures r == Err(ValueError) <==> ParseInts(Split(header)).None?
    ensures r == Err(IndexError) <==> ParseInts(Split(header)).Some? && |Split(header)| < 2
    ensures r.Ok? ==>
      |Split(header)| >= 2 && ParseInt(Split(header)[0]) == Some(r.value.0) && ParseInt(Split(header)[1]) == Some(r.value.1)
  {
    match ParseInts(Split(header))
    case None => Err(ValueError)
    case Some(ns) => if |ns| < 2 then Err(IndexError) else Ok((ns[0], ns[1]))
  }

  /** One vertex line: every token must be a float literal, and the first
      three are kept as the one row the line appends. */
  function VertexRows(line: string, isFloat: string -> bool): (r: Outcome<seq<seq<string>>>)
    ensures r.Ok? <==> forall t :: t in Split(Strip(line)) ==> isFloat(t)
    ensures r.Err? ==> r.error == ValueError
    ensures r.Ok? ==> var ts := Split(Strip(line));
      r.value == [ts[..if |ts| < 3 then |ts| else 3]]
  {
    var ts := Split(Strip(line));
    if forall i :: 0 <= i < |ts| ==> isFloat(ts[i]) then Ok([Slice(ts, 0, 3)]) else Err(ValueError)
  }

  /** `VertexRows` as the reader of a vertex line. */
  function VertexReader(isFloat: string -> bool): string -> Outcome<seq<seq<string>>>
  {
    line => VertexRows(line, isFloat)
  }

  /** `n = values.pop(0)` and the rows appended for it: one triangle
      `values[:3]` for 3, the two triangles `values[:3]` and `values[1:4]`
      for 4, nothing otherwise (indices here count the popped `n`). */
  function FaceRowsOf(vs: seq<int>): (r: Outcome<seq<seq<int>>>)
  {
    if vs == [] then Err(IndexError)
    else if vs[0] == 3 then Ok([Slice(vs, 1, 4)])
    else if vs[0] == 4 then Ok([Slice(vs, 1, 4), Slice(vs, 2, 5)])
    else Ok([])
  }

  /** One face line: its integers, then the rows they give. */
  function FaceRows(line: string): (r: Outcome<seq<seq<int>>>)
  {
    match ParseInts(Split(Strip(line)))
    case None => Err(ValueError)
    case Some(vs) => FaceRowsOf(vs)
  }

  /** A counted loop over `k` lines from line `start` on: each line read
      appends the rows `rowsOf` gives for it, and the first line that raises
      ends the loop with its exception. */
  function Gather<T>(rowsOf: string -> Outcome<seq<T>>, lines: seq<string>, start: nat, k: nat): Outcome<seq<T>>
  {
    if k == 0 then Ok([])
    else
      match Gather(rowsOf, lines, start, k - 1)
      case Err(e) => Err(e)
      case Ok(rows) =>
        match rowsOf(Line(lines, start + k - 1))
        case Err(e) => Err(e)
        case Ok(more) => Ok(rows + more)
  }

  /** `load_off`: the header, then exactly `n_v` vertex lines, then exactly
      `n_f` face lines. */
  function ParseOff(lines: seq<string>, isFloat: string -> bool): Outcome<Loaded>
  {
    var (header, next) := CountsLine(lines);
    match Counts(header)
    case Err(e) => Err(e)
    case Ok((nv, nf)) => ParseBody(VertexReader(isFloat), FaceRows, lines, next, Repeats(nv), Repeats(nf))
  }

  /** The `nv` vertex lines from `start` on, read by `vertexRows`, then the
      `nf` face lines after them, read by `faceRows`. */
  function ParseBody(vertexRows: string -> Outcome<seq<seq<string>>>, faceRows: string -> Outcome<seq<seq<int>>>,
                     lines: seq<string>, start: nat, nv: nat, nf: nat): Outcome<Loaded>
  {
    match Gather(vertexRows, lines, start, nv)
    case Err(e) => Err(e)
    case Ok(vs) =>
      match Gather(faceRows, lines, start + nv, nf)
      case Err(e) => Err(e)
      case Ok(fs) => Ok(Loaded(vs, fs))
  }

  /** `load_off`, reading the lines one at a time with a cursor. */
  method LoadOff(lines: seq<string>, isFloat: string -> bool) returns (r: Outcome<Loaded>)
    ensures r == ParseOff(lines, isFloat)
  {
    var second, cursor := ReadHeader(lines);
    var numbers := ParseInts(Split(second));
    if numbers.None? {
      return Err(ValueError);
    }
    if |numbers.value| < 2 {
      return Err(IndexError);
    }
    var nv, nf := numbers.value[0], numbers.value[1];
    assert Counts(second) == Ok((nv, nf));
    r := ReadBody(VertexReader(isFloat), FaceRows, lines, cursor, Repeats(nv), Repeats(nf));
  }

  /** The vertex loop, then the face loop. */
  method ReadBody(vertexRows: string -> Outcome<seq<seq<string>>>, faceRows: string -> Outcome<seq<seq<int>>>,
                  lines: seq<string>, start: nat, nv: nat, nf: nat) returns (r: Outcome<Loaded>)
    ensures r == ParseBody(vertexRows, faceRows, lines, start, nv, nf)
  {
    var vertices := ReadRows(vertexRows, lines, start, nv);
    if vertices.Err? {
      return Err(vertices.error);
    }
    var faces := ReadRows(faceRows, lines, start + nv, nf);
    if faces.Err? {
      return Err(faces.error);
    }
    return Ok(Loaded(vertices.value, faces.value));
  }

  /** The first one or two lines: the text holding the counts and the
      cursor after them. */
  method ReadHeader(lines: seq<string>) returns (second: string, cursor: nat)
    ensures (second, cursor) == CountsLine(lines)
  {
    var first := Strip(Line(lines, 0));
    cursor := 1;
    if StartsWith(first, "OFF") {
      if |first| == 3 {
        second := Strip(Line(lines, cursor));
        cursor := cursor + 1;
      } else {
        second := first[3..];
      }
    } else {
      second := first;
    }
  }

  /** The vertex or face loop: `n` lines read from `start`, appending their
      rows and stopping at the first line that raises. */
  method ReadRows<T>(rowsOf: string -> Outcome<seq<T>>, lines: seq<string>, start: nat, n: nat)
    returns (r: Outcome<seq<T>>)
    ensures r == Gather(rowsOf, lines, start, n)
  {
    var rows := [];
    for i := 0 to n
      invariant Gather(rowsOf, lines, start, i) == Ok(rows)
    {
      var more := rowsOf(Line(lines, start + i));
      if more.Err? {
        GatherStopsAt(rowsOf, lines, start, i + 1, n);
        return Err(more.error);
      }
      rows := rows + more.value;
    }
    return Ok(rows);
  }

  /** The loop stops at the first line that raises: its exception is the
      result. */
  lemma {:induction false} GatherStopsAt<T>(rowsOf: string -> Outcome<seq<T>>, lines: seq<string>, start: nat, k: nat, n: nat)
    requires k <= n && Gather(rowsOf, lines, start, k).Err?
    ensures Gather(rowsOf, lines, start, n) == Gather(rowsOf, lines, start, k)
    decreases n
  {
    if k < n {
      GatherStopsAt(rowsOf, lines, start, k, n - 1);
    }
  }

  /** `f"{n_v} {n_f} 0 "`. */
  function HeaderLine(nv: nat, nf: nat): string
  {
    Join(" ", ShowInts([nv, nf, 0])) + " "
  }

  /** `" ".join(map(str, vertex))`. */
  function VertexLine(tokens: seq<string>): string
  {
    Join(" ", tokens)
  }

  /** `"3 " + " ".join(map(str, face))`. */
  function FaceLine(f: Face): string
  {
    "3 " + Join(" ", ShowInts(f.Corners()))
  }

  /** The lines `save_off` writes: `OFF`, the counts, one line per vertex and
      one per face, in array order. */
  function SerializeOff<V>(m: Mesh<V>, show: V -> seq<string>): (lines: seq<string>)
    ensures |lines| == 2 + |m.vertices| + |m.faces|
  {
    ["OFF", HeaderLine(|m.vertices|, |m.faces|)] +
    seq(|m.vertices|, i requires 0 <= i < |m.vertices| => VertexLine(show(m.vertices[i]))) +
    seq(|m.faces|, i requires 0 <= i < |m.faces| => FaceLine(m.faces[i]))
  }

  /** `save_off`: the header, then the vertex loop, then the face loop. */
  method SaveOff<V>(m: Mesh<V>, show: V -> seq<string>) returns (lines: seq<string>)
    ensures lines == SerializeOff(m, show)
  {
    var header := ["OFF", HeaderLine(|m.vertices|, |m.faces|)];
    var withVertices := WriteLines(header, m.vertices, v => VertexLine(show(v)));
    lines := WriteLines(withVertices, m.faces, FaceLine);
    SerializedLines(m, show, withVertices, lines);
  }

  /** One loop of `save_off`: a line per item, appended in order. */
  method WriteLines<T>(lines: seq<string>, items: seq<T>, line: T -> string) returns (out: seq<string>)
    ensures |out| == |lines| + |items| && out[..|lines|] == lines
    ensures forall j :: 0 <= j < |items| ==> out[|lines| + j] == line(items[j])
  {
    out := lines;
    for i := 0 to |items|
      invariant |out| == |lines| + i && out[..|lines|] == lines
      invariant forall j :: 0 <= j < i ==> out[|lines| + j] == line(items[j])
    {
      out := out + [line(items[i])];
    }
  }

  /** The lines the two loops of `save_off` leave behind, after the two
      header lines and the vertex lines, are `SerializeOff`. */
  lemma SerializedLines<V>(m: Mesh<V>, show: V -> seq<string>, withVertices: seq<string>, lines: seq<string>)
    requires |withVertices| == 2 + |m.vertices|
    requires withVertices[..2] == ["OFF", HeaderLine(|m.vertices|, |m.faces|)]
    requires forall j :: 0 <= j < |m.vertices| ==> withVertices[2 + j] == VertexLine(show(m.vertices[j]))
    requires |lines| == |withVertices| + |m.faces| && lines[..|withVertices|] == withVertices
    requires forall j :: 0 <= j < |m.faces| ==> lines[|withVertices| + j] == FaceLine(m.faces[j])
    ensures lines == SerializeOff(m, show)
  {
    var spec := SerializeOff(m, show);
    forall i | 0 <= i < |lines|
      ensures lines[i] == spec[i]
    {
      if i < |withVertices| {
        assert lines[i] == withVertices[i];
        if i < 2 {
          assert withVertices[i] == withVertices[..2][i];
        } else {
          assert withVertices[2 + (i - 2)] == VertexLine(show(m.vertices[i - 2]));
        }
      } else {
        assert lines[|withVertices| + (i - |withVertices|)] == FaceLine(m.faces[i - |withVertices|]);
      }
    }
  }

  /** A loop over lines that each give exactly one row collects those rows,
      one per line, in order. */
  lemma {:induction false} GatherEach<T>(rowsOf: string -> Outcome<seq<T>>, lines: seq<string>, start: nat, xs: seq<T>)
    requires forall i :: 0 <= i < |xs| ==> rowsOf(Line(lines, start + i)) == Ok([xs[i]])
    ensures Gather(rowsOf, lines, start, |xs|) == Ok(xs)
  {
    if xs != [] {
      var k := |xs| - 1;
      GatherEach(rowsOf, lines, start, xs[..k]);
      assert xs[..k] + [xs[k]] == xs;
    }
  }

  /** A quad line `4 a b c d` gives the two triangles `a b c` and `b c d`. */
  lemma QuadSplit(a: int, b: int, c: int, d: int, extra: seq<int>)
    ensures FaceRowsOf([4, a, b, c, d] + extra) == Ok([[a, b, c], [b, c, d]])
  {
    var vs := [4, a, b, c, d] + extra;
    assert Slice(vs, 1, 4) == [a, b, c];
    assert Slice(vs, 2, 5) == [b, c, d];
  }

  /** A triangle line `3 a b c` gives the one triangle `a b c`; columns after
      it (colours) are ignored. */
  lemma TriangleRow(a: int, b: int, c: int, extra: seq<int>)
    ensures FaceRowsOf([3, a, b, c] + extra) == Ok([[a, b, c]])
  {
  }

  /** A face line gives two triangles for a quad, one for a triangle and none
      for any other count; an empty line raises `IndexError`. */
  lemma FaceRowsCount(vs: seq<int>)
    ensures FaceRowsOf(vs).Err? <==> vs == []
    ensures vs != [] ==> |FaceRowsOf(vs).value| == (if vs[0] == 3 then 1 else if vs[0] == 4 then 2 else 0)
    ensures vs != [] ==> forall row :: row in FaceRowsOf(vs).value ==> row == Slice(vs, 1, 4) || row == Slice(vs, 2, 5)
  {
  }

  /** How many triangles a face line stands for: one for a leading 3, two
      for a leading 4, none for any other leading count. */
  function Triangles(line: string): nat
  {
    match ParseInts(Split(Strip(line)))
    case None => 0
    case Some(vs) => if vs != [] && vs[0] == 3 then 1 else if vs != [] && vs[0] == 4 then 2 else 0
  }

  /** The sum of `weight` over the `k` lines from `start` on. */
  function WeightTotal(weight: string -> nat, lines: seq<string>, start: nat, k: nat): nat
  {
    if k == 0 then 0 else WeightTotal(weight, lines, start, k - 1) + weight(Line(lines, start + k - 1))
  }

  /** A face line that reads gives as many rows as it stands for triangles. */
  lemma FaceLineTriangles(line: string)
    requires FaceRows(line).Ok?
    ensures |FaceRows(line).value| == Triangles(line)
  {
    var vs := ParseInts(Split(Strip(line))).value;
    FaceRowsCount(vs);
  }

  /** The face loop returns one row per triangle line and two per quad
      line. */
  lemma FaceRowsTotal(lines: seq<string>, start: nat, k: nat)
    requires Gather(FaceRows, lines, start, k).Ok?
    ensures |Gather(FaceRows, lines, start, k).value| == WeightTotal(Triangles, lines, start, k)
  {
    forall line | FaceRows(line).Ok?
      ensures |FaceRows(line).value| == Triangles(line)
    {
      FaceLineTriangles(line);
    }
    GatherLength(FaceRows, Triangles, lines, start, k);
  }

  /** When every line gives as many rows as its weight, a loop that reads
      all its lines returns as many rows as their total weight. */
  lemma {:induction false} GatherLength<T>(rowsOf: string -> Outcome<seq<T>>, weight: string -> nat,
                                           lines: seq<string>, start: nat, k: nat)
    requires forall line :: rowsOf(line).Ok? ==> |rowsOf(line).value| == weight(line)
    requires Gather(rowsOf, lines, start, k).Ok?
    ensures |Gather(rowsOf, lines, start, k).value| == WeightTotal(weight, lines, start, k)
  {
    if k > 0 {
      assert Gather(rowsOf, lines, start, k - 1).Ok?;
      GatherLength(rowsOf, weight, lines, start, k - 1);
    }
  }

  /** The header `save_off` writes reads back as its two counts. */
  lemma HeaderRoundTrip(nv: nat, nf: nat)
    ensures Counts(Strip(HeaderLine(nv, nf))) == Ok((nv, nf))
  {
    var ts := ShowInts([nv, nf, 0]);
    ParseShowInts([nv, nf, 0]);
    JoinTrimmed(ts);
    StripTrailingSpace(Join(" ", ts));
    SplitJoin(ts);
  }

  /** A vertex line of clean float tokens reads back as its first three
      tokens. */
  lemma VertexRoundTrip(tokens: seq<string>, isFloat: string -> bool)
    requires Clean(tokens)
    requires forall i :: 0 <= i < |tokens| ==> isFloat(tokens[i])
    ensures VertexRows(VertexLine(tokens), isFloat) == Ok([Slice(tokens, 0, 3)])
  {
    JoinTrimmed(tokens);
    StripTrimmed(Join(" ", tokens));
    SplitJoin(tokens);
  }

  /** A written face line reads back as the face's three corners. */
  lemma FaceRoundTrip(f: Face)
    ensures FaceRows(FaceLine(f)) == Ok([f.Corners()])
  {
    var ns := [3] + f.Corners();
    var ts := ShowInts(ns);
    assert ShowInt(3) == "3";
    assert ts[1..] == ShowInts(f.Corners());
    assert FaceLine(f) == Join(" ", ts);
    ParseShowInts(ns);
    JoinTrimmed(ts);
    StripTrimmed(Join(" ", ts));
    SplitJoin(ts);
  }

  /** What `load_off` gives back for a mesh `save_off` wrote: the first three
      tokens of every vertex and the corners of every face, in order. */
  lemma LoadSaved<V>(m: Mesh<V>, show: V -> seq<string>, isFloat: string -> bool)
    requires forall i :: 0 <= i < |m.vertices| ==> Clean(show(m.vertices[i]))
    requires forall i, j :: 0 <= i < |m.vertices| && 0 <= j < |show(m.vertices[i])| ==> isFloat(show(m.vertices[i])[j])
    ensures ParseOff(SerializeOff(m, show), isFloat) ==
            Ok(Loaded(seq(|m.vertices|, i requires 0 <= i < |m.vertices| => Slice(show(m.vertices[i]), 0, 3)),
                      seq(|m.faces|, i requires 0 <= i < |m.faces| => m.faces[i].Corners())))
  {
    var lines := SerializeOff(m, show);
    var nv, nf := |m.vertices|, |m.faces|;
    var header := Strip(HeaderLine(nv, nf));
    assert CountsLine(lines) == (header, 2) by {
      assert lines == ["OFF", HeaderLine(nv, nf)] + lines[2..];
      OwnHeaderLine(HeaderLine(nv, nf), lines[2..]);
    }
    assert ParseOff(lines, isFloat) == ParseBody(VertexReader(isFloat), FaceRows, lines, 2, nv, nf) by {
      HeaderRoundTrip(nv, nf);
      ParseOffBody(lines, isFloat, header, 2, nv, nf);
    }
    SavedVerticesRead(m, show, isFloat);
    SavedFacesRead(m, show);
  }

  /** A first line that is exactly `OFF` puts the counts on the second. */
  lemma OwnHeaderLine(counts: string, body: seq<string>)
    ensures CountsLine(["OFF", counts] + body) == (Strip(counts), 2)
  {
    var lines := ["OFF", counts] + body;
    assert Line(lines, 0) == "OFF";
    assert Line(lines, 1) == counts;
    assert Strip("OFF") == "OFF" by {
      assert Trimmed("OFF");
      StripTrimmed("OFF");
    }
    assert StartsWith("OFF", "OFF");
  }

  /** Once the header is read, `load_off` is its two loops. */
  lemma ParseOffBody(lines: seq<string>, isFloat: string -> bool, header: string, next: nat, nv: int, nf: int)
    requires CountsLine(lines) == (header, next) && Counts(header) == Ok((nv, nf))
    ensures ParseOff(lines, isFloat) == ParseBody(VertexReader(isFloat), FaceRows, lines, next, Repeats(nv), Repeats(nf))
  {
  }

  /** The vertex lines `save_off` wrote read back one row each. */
  lemma SavedVerticesRead<V>(m: Mesh<V>, show: V -> seq<string>, isFloat: string -> bool)
    requires forall i :: 0 <= i < |m.vertices| ==> Clean(show(m.vertices[i]))
    requires forall i, j :: 0 <= i < |m.vertices| && 0 <= j < |show(m.vertices[i])| ==> isFloat(show(m.vertices[i])[j])
    ensures Gather(VertexReader(isFloat), SerializeOff(m, show), 2, |m.vertices|) ==
            Ok(seq(|m.vertices|, i requires 0 <= i < |m.vertices| => Slice(show(m.vertices[i]), 0, 3)))
  {
    var lines := SerializeOff(m, show);
    var vs := seq(|m.vertices|, i requires 0 <= i < |m.vertices| => Slice(show(m.vertices[i]), 0, 3));
    forall i | 0 <= i < |vs|
      ensures VertexReader(isFloat)(Line(lines, 2 + i)) == Ok([vs[i]])
    {
      VertexRoundTrip(show(m.vertices[i]), isFloat);
    }
    GatherEach(VertexReader(isFloat), lines, 2, vs);
  }

  /** The face lines `save_off` wrote read back one triangle each. */
  lemma SavedFacesRead<V>(m: Mesh<V>, show: V -> seq<string>)
    ensures Gather(FaceRows, SerializeOff(m, show), 2 + |m.vertices|, |m.faces|) ==
            Ok(seq(|m.faces|, i requires 0 <= i < |m.faces| => m.faces[i].Corners()))
  {
    var lines := SerializeOff(m, show);
    var fs := seq(|m.faces|, i requires 0 <= i < |m.faces| => m.faces[i].Corners());
    forall i | 0 <= i < |fs|
      ensures FaceRows(Line(lines, 2 + |m.vertices| + i)) == Ok([fs[i]])
    {
      FaceRoundTrip(m.faces[i]);
    }
    GatherEach(FaceRows, lines, 2 + |m.vertices|, fs);
  }

  /** The three header layouts `load_off` accepts read the same file: `OFF`
      on its own line, `OFF` followed by the counts, and the counts alone. */
  lemma HeaderLayouts(counts: string, body: seq<string>, isFloat: string -> bool)
    requires counts != [] && Trimmed(counts) && !StartsWith(counts, "OFF")
    ensures ParseOff(["OFF", counts] + body, isFloat) == ParseOff([counts] + body, isFloat)
    ensures ParseOff(["OFF " + counts] + body, isFloat) == ParseOff([counts] + body, isFloat)
  {
    LayoutCounts(counts, body);
    SameCountsSameLoad(["OFF", counts] + body, [counts] + body, isFloat);
    SameCountsSameLoad(["OFF " + counts] + body, [counts] + body, isFloat);
  }

  /** Where each header layout leaves the counts and the cursor. */
  lemma LayoutCounts(counts: string, body: seq<string>)
    requires counts != [] && Trimmed(counts) && !StartsWith(counts, "OFF")
    ensures CountsLine([counts] + body) == (counts, 1)
    ensures CountsLine(["OFF", counts] + body) == (counts, 2)
    ensures CountsLine(["OFF " + counts] + body) == (" " + counts, 1)
    ensures Counts(" " + counts) == Counts(counts)
  {
    StripTrimmed(counts);
    OwnHeaderLine(counts, body);
    BareHeaderLine(counts, body);
    JoinedHeaderLine(counts, body);
    SplitAfterSpace(counts);
  }

  /** A first line without `OFF` holds the counts itself. */
  lemma BareHeaderLine(counts: string, body: seq<string>)
    requires Trimmed(counts) && !StartsWith(counts, "OFF")
    ensures CountsLine([counts] + body) == (counts, 1)
  {
    assert Line([counts] + body, 0) == counts;
    StripTrimmed(counts);
  }

  /** A first line `OFF` followed by the counts holds them after its first
      three characters. */
  lemma JoinedHeaderLine(counts: string, body: seq<string>)
    requires counts != [] && Trimmed(counts)
    ensures CountsLine(["OFF " + counts] + body) == (" " + counts, 1)
  {
    var joined := "OFF " + counts;
    assert Line([joined] + body, 0) == joined;
    assert Strip(joined) == joined by {
      assert Trimmed(joined);
      StripTrimmed(joined);
    }
    assert joined[..3] == "OFF";
    assert joined[3..] == " " + counts;
  }

  /** `load_off` depends only on the counts in the header and on the lines
      after it. */
  lemma SameCountsSameLoad(lines1: seq<string>, lines2: seq<string>, isFloat: string -> bool)
    requires Counts(CountsLine(lines1).0) == Counts(CountsLine(lines2).0)
    requires CountsLine(lines1).1 <= |lines1| && CountsLine(lines2).1 <= |lines2|
    requires lines1[CountsLine(lines1).1..] == lines2[CountsLine(lines2).1..]
    ensures ParseOff(lines1, isFloat) == ParseOff(lines2, isFloat)
  {
    var (h1, n1) := CountsLine(lines1);
    var (h2, n2) := CountsLine(lines2);
    match Counts(h1)
    case Err(_) =>
    case Ok((nv, nf)) =>
      ParseOffBody(lines1, isFloat, h1, n1, nv, nf);
      ParseOffBody(lines2, isFloat, h2, n2, nv, nf);
      BodyFrom(VertexReader(isFloat), FaceRows, lines1, n1, Repeats(nv), Repeats(nf));
      BodyFrom(VertexReader(isFloat), FaceRows, lines2, n2, Repeats(nv), Repeats(nf));
  }

  /** Both loops read from the cursor on, and nothing before it. */
  lemma BodyFrom(vertexRows: string -> Outcome<seq<seq<string>>>, faceRows: string -> Outcome<seq<seq<int>>>,
                 lines: seq<string>, start: nat, nv: nat, nf: nat)
    requires start <= |lines|
    ensures ParseBody(vertexRows, faceRows, lines, start, nv, nf) == ParseBody(vertexRows, faceRows, lines[start..], 0, nv, nf)
  {
    GatherFrom(vertexRows, lines, start, 0, nv);
    GatherFrom(faceRows, lines, start, nv, nf);
  }

  /** Reading from line `start + s` is reading from line `s` of what follows
      line `start`. */
  lemma {:induction false} GatherFrom<T>(rowsOf: string -> Outcome<seq<T>>, lines: seq<string>, start: nat, s: nat, k: nat)
    requires start <= |lines|
    ensures Gather(rowsOf, lines, start + s, k) == Gather(rowsOf, lines[start..], s, k)
  {
    if k > 0 {
      GatherFrom(rowsOf, lines, start, s, k - 1);
      assert Line(lines, start + s + k - 1) == Line(lines[start..], s + k - 1);
    }
  }
}
