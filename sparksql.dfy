/** magic/sparksql.py: the `%%sparksql` cell magic and the `%config` line
    magic. A DataFrame is abstracted as its column names and its rows of
    already-`str`-formatted cells; the Spark session, `spark.sql` and IPython
    display are inputs or left out. */
module SparkSql {
  import opened Wrappers
  import opened PyText

  // ---------------------------------------------------------------------------
  // interpolate_variables: re.sub(r"\{(\w+)\}", replacer, query)
  // ---------------------------------------------------------------------------

  /** Length of the run of `\w` characters that starts `s`. */
  function WordRun(s: string): (n: nat)
    ensures n <= |s|
    ensures forall i :: 0 <= i < n ==> IsWordChar(s[i])
    ensures n == |s| || !IsWordChar(s[n])
  {
    if s == [] || !IsWordChar(s[0]) then 0 else 1 + WordRun(s[1..])
  }

  /** What the group `(\w+)` can capture. */
  predicate IsName(w: string) {
    |w| > 0 && forall i :: 0 <= i < |w| ==> IsWordChar(w[i])
  }

  /** The name captured by a match of `\{(\w+)\}` anchored at the start of `s`, if any. */
  function PlaceholderAt(s: string): (r: Option<string>)
    ensures r.Some? ==> IsName(r.value) && |r.value| + 2 <= |s| && s[..|r.value| + 2] == "{" + r.value + "}"
    ensures r.None? && s != [] && s[0] == '{' ==> |s| < 3 || !IsName(s[1..1 + WordRun(s[1..])]) || 1 + WordRun(s[1..]) == |s| || s[1 + WordRun(s[1..])] != '}'
    ensures s == [] || s[0] != '{' ==> r.None?
  {
    if |s| < 3 || s[0] != '{' then None
    else
      var n := WordRun(s[1..]);
      if n > 0 && 1 + n < |s| && s[1 + n] == '}' then
        assert s[..n + 2] == "{" + s[1..1 + n] + "}" by {
          var p, q := s[..n + 2], "{" + s[1..1 + n] + "}";
          assert forall i :: 0 <= i < |p| ==> p[i] == q[i];
        }
        Some(s[1..1 + n])
      else None
  }

  /** One left-to-right pass: a placeholder whose name is bound is replaced by
      the value, an unbound one is copied verbatim, and scanning resumes after
      the placeholder, so substituted text is never rescanned. The namespace
      maps names to the `str` of their values. */
  function Interpolate(s: string, ns: map<string, string>): string
    decreases |s|
  {
    if s == [] then []
    else match PlaceholderAt(s)
      case Some(name) => (if name in ns then ns[name] else s[..|name| + 2]) + Interpolate(s[|name| + 2..], ns)
      case None => [s[0]] + Interpolate(s[1..], ns)
  }

  lemma {:induction false} WordRunOfName(w: string, rest: string)
    requires forall i :: 0 <= i < |w| ==> IsWordChar(w[i])
    ensures WordRun(w + "}" + rest) == |w|
  {
    if w != [] {
      assert (w + "}" + rest)[1..] == w[1..] + "}" + rest;
      WordRunOfName(w[1..], rest);
    }
  }

  /** `{name}` followed by anything is recognised as the placeholder `name`. */
  lemma PlaceholderRecognised(w: string, rest: string)
    requires IsName(w)
    ensures PlaceholderAt("{" + w + "}" + rest) == Some(w)
  {
    var s := "{" + w + "}" + rest;
    assert s[1..] == w + "}" + rest;
    WordRunOfName(w, rest);
    assert s[1..1 + |w|] == w;
  }

  /** A bound placeholder is replaced by its value; interpolation goes on after it. */
  lemma PlaceholderSubstituted(w: string, rest: string, ns: map<string, string>)
    requires IsName(w) && w in ns
    ensures Interpolate("{" + w + "}" + rest, ns) == ns[w] + Interpolate(rest, ns)
  {
    PlaceholderRecognised(w, rest);
    assert ("{" + w + "}" + rest)[|w| + 2..] == rest;
  }

  /** An unbound placeholder is kept verbatim. */
  lemma PlaceholderKept(w: string, rest: string, ns: map<string, string>)
    requires IsName(w) && w !in ns
    ensures Interpolate("{" + w + "}" + rest, ns) == "{" + w + "}" + Interpolate(rest, ns)
  {
    PlaceholderRecognised(w, rest);
    assert ("{" + w + "}" + rest)[|w| + 2..] == rest;
  }

  /** Text without a `{` passes through unchanged and does not affect what follows. */
  lemma {:induction false} PlainTextUnchanged(a: string, b: string, ns: map<string, string>)
    requires '{' !in a
    ensures Interpolate(a + b, ns) == a + Interpolate(b, ns)
    decreases |a|
  {
    if a != [] {
      var s, c, rest := a + b, a[0], a[1..];
      assert c in a;
      assert s[0] == c && s[1..] == rest + b;
      PlainStep(s, ns);
      PlainTextUnchanged(rest, b, ns);
      AppendAssoc([c], rest, Interpolate(b, ns));
      assert [c] + rest == a;
    } else {
      assert a + b == b;
    }
  }

  /** Where no placeholder starts, the first character is copied and scanning moves on by one. */
  lemma PlainStep(s: string, ns: map<string, string>)
    requires s != [] && PlaceholderAt(s).None?
    ensures Interpolate(s, ns) == [s[0]] + Interpolate(s[1..], ns)
  {
  }

  /** Where a placeholder starts, it is replaced or kept, and scanning resumes after it. */
  lemma PlaceholderStep(s: string, name: string, ns: map<string, string>)
    requires PlaceholderAt(s) == Some(name)
    ensures |name| + 2 <= |s|
    ensures Interpolate(s, ns) == (if name in ns then ns[name] else s[..|name| + 2]) + Interpolate(s[|name| + 2..], ns)
  {
  }

  /** With nothing bound, interpolation is the identity. */
  lemma {:induction false} EmptyNamespaceIdentity(s: string)
    ensures Interpolate(s, map[]) == s
    decreases |s|
  {
    var none: map<string, string> := map[];
    if s != [] {
      var p := PlaceholderAt(s);
      if p.Some? {
        var name := p.value;
        PlaceholderStep(s, name, none);
        assert name !in none;
        EmptyNamespaceIdentity(s[|name| + 2..]);
        assert s[..|name| + 2] + s[|name| + 2..] == s;
      } else {
        PlainStep(s, none);
        EmptyNamespaceIdentity(s[1..]);
        assert [s[0]] + s[1..] == s;
      }
    }
  }

  /** A value that itself looks like a placeholder is not expanded again. */
  lemma NoRescan()
    ensures Interpolate("{a}", map["a" := "{b}", "b" := "x"]) == "{b}"
  {
    var ns := map["a" := "{b}", "b" := "x"];
    assert IsName("a");
    PlaceholderSubstituted("a", "", ns);
    assert "{a}" == "{" + "a" + "}" + "";
    assert Interpolate("", ns) == "";
  }

  /** The two placeholders of the unit test: both bound, both replaced, the
      surrounding text untouched. */
  lemma TwoPlaceholders(a: string, w1: string, b: string, w2: string, c: string, ns: map<string, string>)
    requires '{' !in a && '{' !in b && '{' !in c
    requires IsName(w1) && w1 in ns && IsName(w2) && w2 in ns
    ensures Interpolate(a + ("{" + w1 + "}") + b + ("{" + w2 + "}") + c, ns) == a + ns[w1] + b + ns[w2] + c
  {
    var t2 := "{" + w2 + "}" + c;
    var t1 := b + t2;
    var t0 := "{" + w1 + "}" + t1;
    assert Interpolate(t2, ns) == ns[w2] + c by {
      PlainTextUnchanged(c, [], ns);
      assert c + [] == c;
      PlaceholderSubstituted(w2, c, ns);
    }
    assert Interpolate(t1, ns) == b + (ns[w2] + c) by {
      PlainTextUnchanged(b, t2, ns);
    }
    assert Interpolate(t0, ns) == ns[w1] + (b + (ns[w2] + c)) by {
      PlaceholderSubstituted(w1, t1, ns);
    }
    assert Interpolate(a + t0, ns) == a + (ns[w1] + (b + (ns[w2] + c))) by {
      PlainTextUnchanged(a, t0, ns);
    }
    Associate(a, "{" + w1 + "}", b, "{" + w2 + "}", c);
    Associate(a, ns[w1], b, ns[w2], c);
  }

  lemma Associate(a: string, x: string, b: string, y: string, c: string)
    ensures a + x + b + y + c == a + (x + (b + (y + c)))
  {
  }

  /** The unit test's query: both placeholders bound, both replaced, the
      surrounding text untouched. */
  lemma QueryExample()
    ensures Interpolate("SELECT * FROM table WHERE id = " + "{user_id}" + " AND name = '" + "{user_name}" + "'",
                        map["user_id" := "123", "user_name" := "Alice"])
            == "SELECT * FROM table WHERE id = " + "123" + " AND name = '" + "Alice" + "'"
  {
    var ns := map["user_id" := "123", "user_name" := "Alice"];
    var a, b, c := "SELECT * FROM table WHERE id = ", " AND name = '", "'";
    assert IsName("user_id") && IsName("user_name");
    assert '{' !in a && '{' !in b && '{' !in c;
    assert "{user_id}" == "{" + "user_id" + "}" && "{user_name}" == "{" + "user_name" + "}";
    TwoPlaceholders(a, "user_id", b, "user_name", c, ns);
  }

  // ---------------------------------------------------------------------------
  // format_dataframe_as_html
  // ---------------------------------------------------------------------------

  /** The DataFrame as the HTML table sees it: `df.count()` is `|rows|`. */
  datatype Frame = Frame(columns: seq<string>, rows: seq<seq<string>>)

  function Min(a: int, b: int): int {
    if a <= b then a else b
  }

  /** The rows `df.limit(limit).toPandas()` yields. */
  function Shown(f: Frame, limit: nat): (rs: seq<seq<string>>)
    ensures |rs| == Min(limit, |f.rows|)
    ensures rs == f.rows[..|rs|]
  {
    f.rows[..Min(limit, |f.rows|)]
  }

  const TableOpen := "<table border='1'>"

  /** `"".join(f"<tag>{x}</tag>" for x in xs)`. */
  function Cells(tag: string, xs: seq<string>): string {
    if xs == [] then [] else "<" + tag + ">" + xs[0] + "</" + tag + ">" + Cells(tag, xs[1..])
  }

  function HeaderLine(columns: seq<string>): string {
    "<tr>" + Cells("th", columns) + "</tr>"
  }

  function RowLine(row: seq<string>): string {
    "<tr>" + Cells("td", row) + "</tr>"
  }

  /** The row lines, each closed by a newline. */
  function RowsHtml(rs: seq<seq<string>>): string {
    if rs == [] then [] else RowLine(rs[0]) + "\n" + RowsHtml(rs[1..])
  }

  function Footer(limit: nat): string {
    "<p><i>only showing top " + IntToString(limit) + " row(s)</i></p>"
  }

  /** What follows the last row line: the closing tag and, for a truncated frame, the footer. */
  function Closing(f: Frame, limit: nat): string {
    "</table>" + if |f.rows| > limit then Footer(limit) else []
  }

  /** The whole document the function returns. */
  function HtmlTable(f: Frame, limit: nat): string {
    TableOpen + "\n" + (HeaderLine(f.columns) + "\n" + (RowsHtml(Shown(f, limit)) + Closing(f, limit)))
  }

  lemma AppendAssoc<T>(a: seq<T>, b: seq<T>, c: seq<T>)
    ensures a + b + c == a + (b + c)
  {
  }

  lemma {:induction false} RowsHtmlSnoc(rs: seq<seq<string>>, r: seq<string>)
    ensures RowsHtml(rs + [r]) == RowsHtml(rs) + (RowLine(r) + "\n")
  {
    if rs != [] {
      assert (rs + [r])[0] == rs[0];
      assert (rs + [r])[1..] == rs[1..] + [r];
      RowsHtmlSnoc(rs[1..], r);
    } else {
      assert rs + [r] == [r];
      assert [r][1..] == [];
    }
  }

  /** `format_dataframe_as_html`: the header, then one line per shown row
      appended in a loop, the closing tag, and the footer when the frame has
      more rows than the limit. */
  method FormatDataFrameAsHtml(f: Frame, limit: nat) returns (html: string)
    ensures html == HtmlTable(f, limit)
  {
    var shown := Shown(f, limit);
    html := TableOpen + "\n";
    html := html + HeaderLine(f.columns) + "\n";
    html := AppendRows(html, shown);
    ghost var body := html;
    html := html + "</table>";
    if |f.rows| > limit {
      html := html + Footer(limit);
    }
    assert html == body + Closing(f, limit);
    HtmlTableShape(f, limit);
  }

  /** The loop of `format_dataframe_as_html`: one line per row appended to `html`. */
  method AppendRows(head: string, shown: seq<seq<string>>) returns (html: string)
    ensures html == head + RowsHtml(shown)
  {
    html := head;
    for i := 0 to |shown|
      invariant html == head + RowsHtml(shown[..i])
    {
      assert shown[..i + 1] == shown[..i] + [shown[i]];
      RowsHtmlSnoc(shown[..i], shown[i]);
      AppendAssoc(head, RowsHtml(shown[..i]), RowLine(shown[i]) + "\n");
      html := html + (RowLine(shown[i]) + "\n");
    }
    assert shown[..|shown|] == shown;
  }

  /** The document as the loop builds it: the head, the row lines, the closing part. */
  lemma HtmlTableShape(f: Frame, limit: nat)
    ensures HtmlTable(f, limit) == TableOpen + "\n" + HeaderLine(f.columns) + "\n" + RowsHtml(Shown(f, limit)) + Closing(f, limit)
  {
    Associate(TableOpen, "\n", HeaderLine(f.columns), "\n", RowsHtml(Shown(f, limit)) + Closing(f, limit));
  }

  predicate NoNewline(xs: seq<string>) {
    forall i :: 0 <= i < |xs| ==> '\n' !in xs[i]
  }

  lemma {:induction false} CellsOneLine(tag: string, xs: seq<string>)
    requires '\n' !in tag && NoNewline(xs)
    ensures '\n' !in Cells(tag, xs)
  {
    if xs != [] {
      CellsOneLine(tag, xs[1..]);
    }
  }

  /** The lines of the row section, one per row. */
  function RowLines(rs: seq<seq<string>>): (ls: seq<string>)
    ensures |ls| == |rs|
    ensures forall i :: 0 <= i < |rs| ==> ls[i] == RowLine(rs[i])
  {
    if rs == [] then [] else [RowLine(rs[0])] + RowLines(rs[1..])
  }

  lemma FirstRowSplits(rs: seq<seq<string>>, tail: string)
    requires rs != [] && '\n' !in RowLine(rs[0])
    ensures Split(RowsHtml(rs) + tail, '\n') == [RowLine(rs[0])] + Split(RowsHtml(rs[1..]) + tail, '\n')
  {
    var line, rest := RowLine(rs[0]), RowsHtml(rs[1..]);
    AppendAssoc(line + "\n", rest, tail);
    SplitAtSeparator(line, '\n', rest + tail);
  }

  lemma {:induction false} SplitRows(rs: seq<seq<string>>, tail: string)
    requires forall i :: 0 <= i < |rs| ==> '\n' !in RowLine(rs[i])
    ensures Split(RowsHtml(rs) + tail, '\n') == RowLines(rs) + Split(tail, '\n')
  {
    if rs != [] {
      var line, more := RowLine(rs[0]), rs[1..];
      FirstRowSplits(rs, tail);
      forall i | 0 <= i < |more|
        ensures '\n' !in RowLine(more[i])
      {
        assert more[i] == rs[i + 1];
      }
      SplitRows(more, tail);
      assert RowLines(rs) == [line] + RowLines(more);
      AppendAssoc([line], RowLines(more), Split(tail, '\n'));
    } else {
      assert RowsHtml(rs) + tail == tail;
    }
  }

  lemma FooterOneLine(f: Frame, limit: nat)
    ensures '\n' !in Closing(f, limit)
  {
    var d := NatToString(limit);
    assert '\n' !in d by {
      assert forall i :: 0 <= i < |d| ==> d[i] != '\n';
    }
    assert '\n' !in Footer(limit) by {
      assert IntToString(limit) == d;
      assert '\n' !in "<p><i>only showing top " && '\n' !in " row(s)</i></p>";
    }
    assert '\n' !in "</table>";
  }

  lemma SplitHeaderRows(header: string, rs: seq<seq<string>>, tail: string)
    requires '\n' !in header && '\n' !in tail
    requires forall i :: 0 <= i < |rs| ==> '\n' !in RowLine(rs[i])
    ensures Split(header + "\n" + (RowsHtml(rs) + tail), '\n') == [header] + (RowLines(rs) + [tail])
  {
    var body := RowsHtml(rs) + tail;
    assert Split(body, '\n') == RowLines(rs) + [tail] by {
      SplitWithoutSeparator(tail, '\n');
      SplitRows(rs, tail);
    }
    SplitAtSeparator(header, '\n', body);
  }

  lemma SplitDocument(open: string, header: string, rs: seq<seq<string>>, tail: string)
    requires '\n' !in open && '\n' !in header && '\n' !in tail
    requires forall i :: 0 <= i < |rs| ==> '\n' !in RowLine(rs[i])
    ensures Split(open + "\n" + (header + "\n" + (RowsHtml(rs) + tail)), '\n')
            == [open] + ([header] + (RowLines(rs) + [tail]))
  {
    SplitHeaderRows(header, rs, tail);
    SplitAtSeparator(open, '\n', header + "\n" + (RowsHtml(rs) + tail));
  }

  /** When no cell and no column name holds a newline, the document has
      exactly one line per shown row, between the opening line plus the
      header line and the closing line: one `<th>` per column, one `<tr>` per
      row. */
  lemma TableLines(f: Frame, limit: nat)
    requires NoNewline(f.columns) && forall r :: r in f.rows ==> NoNewline(r)
    ensures Split(HtmlTable(f, limit), '\n')
            == [TableOpen] + ([HeaderLine(f.columns)] + (RowLines(Shown(f, limit)) + [Closing(f, limit)]))
  {
    var shown := Shown(f, limit);
    CellsOneLine("th", f.columns);
    forall i | 0 <= i < |shown|
      ensures '\n' !in RowLine(shown[i])
    {
      assert shown[i] in f.rows;
      CellsOneLine("td", shown[i]);
    }
    FooterOneLine(f, limit);
    assert '\n' !in TableOpen;
    SplitDocument(TableOpen, HeaderLine(f.columns), shown, Closing(f, limit));
  }

  /** The character `k` places from the end of `a + b` is that of `b`. */
  lemma FromEnd(a: string, b: string, k: nat)
    requires 1 <= k <= |b|
    ensures (a + b)[|a + b| - k] == b[|b| - k]
  {
  }

  lemma FooterPenultimate(limit: nat)
    ensures |Footer(limit)| >= 2 && Footer(limit)[|Footer(limit)| - 2] == 'p'
  {
    var tail := " row(s)</i></p>";
    assert Footer(limit) == "<p><i>only showing top " + IntToString(limit) + tail;
    FromEnd("<p><i>only showing top " + IntToString(limit), tail, 2);
  }

  /** `"</table>"` and a `p`-terminated footer tell the two endings apart. */
  lemma EndingRule(body: string, ft: string, truncated: bool)
    requires |ft| >= 2 && ft[|ft| - 2] == 'p'
    ensures EndsWith(body + ("</table>" + if truncated then ft else []), "</table>") <==> !truncated
    ensures truncated <==> EndsWith(body + ("</table>" + if truncated then ft else []), ft)
  {
    var h := body + ("</table>" + if truncated then ft else []);
    if truncated {
      assert h == (body + "</table>") + ft;
      FromEnd(body + "</table>", ft, 2);
      assert h[|h| - |ft|..] == ft;
    } else {
      assert h == body + "</table>";
      FromEnd(body, "</table>", 2);
      assert h[|h| - 8..] == "</table>";
    }
    if EndsWith(h, "</table>") {
      FromEnd(h[..|h| - 8], "</table>", 2);
      assert h == h[..|h| - 8] + "</table>";
    }
    if EndsWith(h, ft) {
      FromEnd(h[..|h| - |ft|], ft, 2);
      assert h == h[..|h| - |ft|] + ft;
    }
  }

  /** The footer is appended exactly when the frame has more rows than the
      limit, and it names the limit. */
  lemma FooterIffTruncated(f: Frame, limit: nat)
    ensures EndsWith(HtmlTable(f, limit), "</table>") <==> |f.rows| <= limit
    ensures |f.rows| > limit <==> EndsWith(HtmlTable(f, limit), Footer(limit))
  {
    HtmlTableShape(f, limit);
    FooterPenultimate(limit);
    EndingRule(TableOpen + "\n" + HeaderLine(f.columns) + "\n" + RowsHtml(Shown(f, limit)), Footer(limit), |f.rows| > limit);
  }

  /** Rows past the limit never reach the document: two frames that agree on
      the columns, on the shown rows and on whether they are truncated render
      the same. */
  lemma RowsPastLimitIgnored(f: Frame, g: Frame, limit: nat)
    requires f.columns == g.columns && Shown(f, limit) == Shown(g, limit)
    requires |f.rows| > limit <==> |g.rows| > limit
    ensures HtmlTable(f, limit) == HtmlTable(g, limit)
  {
  }

  lemma ExamplePieces()
    ensures HeaderLine(["id"]) == "<tr><th>id</th></tr>"
    ensures RowsHtml([["1"]]) == "<tr><td>1</td></tr>" + "\n"
    ensures Footer(1) == "<p><i>only showing top 1 row(s)</i></p>"
  {
    HeaderExample();
    RowExample();
    FooterExample();
  }

  lemma HeaderExample()
    ensures HeaderLine(["id"]) == "<tr><th>id</th></tr>"
  {
    OneCell("th", "id");
  }

  lemma RowExample()
    ensures RowsHtml([["1"]]) == "<tr><td>1</td></tr>" + "\n"
  {
    OneCell("td", "1");
    assert RowsHtml([["1"]]) == RowLine(["1"]) + "\n" + RowsHtml([]);
  }

  lemma OneCell(tag: string, x: string)
    ensures Cells(tag, [x]) == "<" + tag + ">" + x + "</" + tag + ">"
  {
    assert [x][1..] == [];
  }

  lemma FooterExample()
    ensures Footer(1) == "<p><i>only showing top 1 row(s)</i></p>"
  {
    assert IntToString(1) == "1" by {
      assert NatToString(1) == "1";
    }
  }

  /** The second unit test: one column, one shown row out of a hundred, limit 1. */
  lemma TruncatedExample(rows: seq<seq<string>>)
    requires |rows| == 100 && rows[0] == ["1"]
    ensures HtmlTable(Frame(["id"], rows), 1)
            == "<table border='1'>" + "\n" + "<tr><th>id</th></tr>" + "\n" + "<tr><td>1</td></tr>" + "\n"
               + "</table>" + "<p><i>only showing top 1 row(s)</i></p>"
  {
    var f := Frame(["id"], rows);
    assert Shown(f, 1) == [["1"]];
    ExamplePieces();
  }

  // ---------------------------------------------------------------------------
  // %config SparkSql.<key>=<value>
  // ---------------------------------------------------------------------------

  /** What a `%config` line does, and what it reports. */
  datatype ConfigCommand =
    | ShowSettings
    | SetLimit(limit: int)
    | InvalidLimit(value: string)
    | UnknownKey(key: string)
    | Usage

  const Prefix := "SparkSql."

  /** The two halves of `key=value`: the key must start with `SparkSql.`;
      every `SparkSql.` is removed from it, and only `limit` with an
      `int()`-parsable value sets the limit. */
  function ConfigOfPair(k: string, v: string): ConfigCommand {
    if StartsWith(k, Prefix) then
      var key := ReplaceAll(k, Prefix, "");
      if key == "limit" then
        match ParseInt(v)
        case Some(n) => SetLimit(n)
        case None => InvalidLimit(v)
      else UnknownKey(key)
    else Usage
  }

  /** `config`: an empty line shows the settings; otherwise the stripped line
      must split on `=` into exactly two parts, read by `ConfigOfPair`, and
      anything else prints the usage. */
  function ParseConfigLine(line: string): (r: ConfigCommand)
    ensures r.ShowSettings? <==> line == []
  {
    if line == [] then ShowSettings
    else
      var parts := Split(Strip(line), '=');
      if |parts| == 2 then ConfigOfPair(parts[0], parts[1]) else Usage
  }

  /** A non-empty line that strips to `k=v`, with no other `=`, is read as that pair. */
  lemma ConfigOfLine(line: string, k: string, v: string)
    requires line != [] && Strip(line) == k + "=" + v && '=' !in k && '=' !in v
    ensures ParseConfigLine(line) == ConfigOfPair(k, v)
  {
    assert Split(Strip(line), '=') == [k, v] by {
      SplitAtSeparator(k, '=', v);
      SplitWithoutSeparator(v, '=');
    }
  }

  /** A line split into exactly two parts is the two parts joined by `=`. */
  lemma TwoPartsJoin(s: string)
    requires |Split(s, '=')| == 2
    ensures s == Split(s, '=')[0] + "=" + Split(s, '=')[1]
  {
    var parts := Split(s, '=');
    SplitJoin(s, '=');
    assert Join(parts[1..], '=') == parts[1];
  }

  /** `k=v` is a line that sets the limit to `n`. */
  predicate SetsLimitTo(k: string, v: string, n: int) {
    '=' !in k && '=' !in v && StartsWith(k, Prefix) && ReplaceAll(k, Prefix, "") == "limit" && ParseInt(v) == Some(n)
  }

  lemma SetLimitHasPair(line: string, n: int) returns (k: string, v: string)
    requires ParseConfigLine(line) == SetLimit(n)
    ensures Strip(line) == k + "=" + v && SetsLimitTo(k, v, n)
  {
    var parts := Split(Strip(line), '=');
    TwoPartsJoin(Strip(line));
    k, v := parts[0], parts[1];
    assert '=' !in k && '=' !in v;
  }

  /** The limit changes exactly for a stripped line `k=v` with no other `=`,
      `k` starting with `SparkSql.` and naming `limit` once every `SparkSql.`
      is removed, and `v` parsing as an integer, which becomes the limit. */
  lemma SetLimitExactly(line: string, n: int)
    ensures ParseConfigLine(line) == SetLimit(n) <==>
              exists k, v :: Strip(line) == k + "=" + v && SetsLimitTo(k, v, n)
  {
    if ParseConfigLine(line) == SetLimit(n) {
      var k, v := SetLimitHasPair(line, n);
    }
    if exists k, v :: Strip(line) == k + "=" + v && SetsLimitTo(k, v, n) {
      var k, v :| Strip(line) == k + "=" + v && SetsLimitTo(k, v, n);
      assert line != [] by {
        assert |Strip(line)| > 0;
      }
      ConfigOfLine(line, k, v);
    }
  }

  /** `str.replace` on a string that starts with the pattern. */
  lemma ReplaceLeading(p: string, rest: string, r: string)
    requires p != []
    ensures ReplaceAll(p + rest, p, r) == r + ReplaceAll(rest, p, r)
  {
    assert StartsWith(p + rest, p) by {
      assert (p + rest)[..|p|] == p;
    }
    assert (p + rest)[|p|..] == rest;
  }

  lemma LimitKey()
    ensures ReplaceAll(Prefix + "limit", Prefix, "") == "limit"
    ensures StartsWith(Prefix + "limit", Prefix)
  {
    ReplaceLeading(Prefix, "limit", "");
    ReplaceAbsent("limit", Prefix, "");
    assert (Prefix + "limit")[..|Prefix|] == Prefix;
  }

  /** A line `k=v` without surrounding blanks or another `=` is read as that pair. */
  lemma PlainPair(k: string, v: string)
    requires k != [] && !IsSpace(k[0]) && v != [] && !IsSpace(v[|v| - 1])
    requires '=' !in k && '=' !in v
    ensures ParseConfigLine(k + "=" + v) == ConfigOfPair(k, v)
  {
    var line := k + "=" + v;
    assert line[0] == k[0] && line[|line| - 1] == v[|v| - 1];
    StripNoEdgeSpace(line, StrBlanks);
    ConfigOfLine(line, k, v);
  }

  /** `%config SparkSql.limit=<n>` sets the limit to `n`, for every integer `n`. */
  lemma ConfigLineSetsLimit(n: int)
    ensures ParseConfigLine(Prefix + "limit" + "=" + IntToString(n)) == SetLimit(n)
  {
    var k, v := Prefix + "limit", IntToString(n);
    var d := NatToString(if n < 0 then -n else n);
    assert v == (if n < 0 then "-" else "") + d;
    assert '=' !in v by {
      assert forall i :: 0 <= i < |d| ==> d[i] != '=';
    }
    assert !IsSpace(v[|v| - 1]) by {
      assert v[|v| - 1] == d[|d| - 1];
    }
    assert '=' !in k && k[0] == 'S';
    PlainPair(k, v);
    LimitKey();
    IntToStringParses(n);
  }

  /** `str.replace` removes every copy of the prefix, so a doubled prefix is
      accepted as well. */
  lemma DoubledPrefixAccepted()
    ensures ParseConfigLine(Prefix + Prefix + "limit" + "=" + "5") == SetLimit(5)
  {
    var k := Prefix + Prefix + "limit";
    assert ParseConfigLine(k + "=" + "5") == ConfigOfPair(k, "5") by {
      assert '=' !in Prefix && '=' !in "limit";
      assert k[0] == 'S';
      PlainPair(k, "5");
    }
    assert StartsWith(k, Prefix) && ReplaceAll(k, Prefix, "") == "limit" by {
      assert k == Prefix + (Prefix + "limit");
      assert k[..|Prefix|] == Prefix;
      ReplaceLeading(Prefix, Prefix + "limit", "");
      LimitKey();
    }
    assert ParseInt("5") == Some(5) by {
      IntToStringParses(5);
      assert NatToString(5) == "5";
    }
  }

  /** Spaces around `=` survive the strip, so the key no longer reads `limit`. */
  lemma SpacedAssignmentIsUnknownKey()
    ensures ParseConfigLine(Prefix + "limit " + "=" + " 5") == UnknownKey("limit ")
  {
    var k := Prefix + "limit ";
    assert ParseConfigLine(k + "=" + " 5") == ConfigOfPair(k, " 5") by {
      assert '=' !in Prefix && '=' !in "limit " && '=' !in " 5";
      assert k[0] == 'S';
      PlainPair(k, " 5");
    }
    assert StartsWith(k, Prefix) && ReplaceAll(k, Prefix, "") == "limit " by {
      assert k[..|Prefix|] == Prefix;
      ReplaceLeading(Prefix, "limit ", "");
      ReplaceAbsent("limit ", Prefix, "");
    }
  }

  // ---------------------------------------------------------------------------
  // %%sparksql
  // ---------------------------------------------------------------------------

  /** The parsed magic line; absent options are `None`. */
  datatype CellArgs = CellArgs(variable: Option<string>, cache: bool, eager: bool,
                               view: Option<string>, limit: Option<int>)

  /** Python truthiness of an optional string argument. */
  predicate Given(o: Option<string>) {
    o.Some? && o.value != []
  }

  /** What the magic does with the DataFrame, in order. */
  datatype Step =
    | CacheEager
    | CacheLazy
    | CreateView(view: string)
    | BindVariable(name: string)
    | Display(limit: int)

  /** A completed run: the query handed to `spark.sql`, the steps, the
      printed lines, and whether the DataFrame is returned. */
  datatype Run = Run(query: string, steps: seq<Step>, printed: seq<string>, returnsFrame: bool)

  datatype MagicError =
    | NoActiveSession
    | EmptyQuery
    | ExecutionFailed(message: string, done: seq<Step>, printed: seq<string>)

  /** An exception inside the `try`: `at` names the call that raises, 0 for
      `spark.sql` and `i` for the `i`-th step, and `message` is its `str`. */
  datatype Failure = Failure(at: nat, message: string)

  /** The steps that finish before the call at `at` raises. */
  function Before(steps: seq<Step>, at: nat): (r: seq<Step>)
    requires at <= |steps|
    ensures |r| < |steps| || (at == 0 && r == [])
    ensures at > 0 ==> |r| == at - 1
    ensures r <= steps
  {
    if at == 0 then [] else steps[..at - 1]
  }

  const DefaultLimit := 20

  /** The limit for this cell: the per-call `--limit` if given, else the configured one. */
  function EffectiveLimit(args: CellArgs, configured: int): (n: int)
    ensures args.limit.Some? ==> n == args.limit.value
    ensures args.limit.None? ==> n == configured
  {
    if args.limit.Some? then args.limit.value else configured
  }

  function Steps(args: CellArgs, configured: int): seq<Step> {
    (if args.eager then [CacheEager] else if args.cache then [CacheLazy] else [])
    + (if Given(args.view) then [CreateView(args.view.value)] else [])
    + (if Given(args.variable) then [BindVariable(args.variable.value)] else [])
    + (if EffectiveLimit(args, configured) > 0 then [Display(EffectiveLimit(args, configured))] else [])
  }

  /** The line printed when the DataFrame is bound, as written: it always names `df`. */
  function BindMessageAsWritten(name: string): string {
    "return dataframe to local variable 'df'"
  }

  /** The line as evidently intended: it names the variable. */
  function BindMessage(name: string): string {
    "return dataframe to local variable '" + name + "'"
  }

  function StepMessages(s: Step): seq<string> {
    match s
    case CacheEager => ["cache dataframe with eager load"]
    case CacheLazy => ["cache dataframe"]
    case CreateView(v) => ["create temporary view '" + v + "'"]
    case BindVariable(name) => [BindMessageAsWritten(name)]
    case Display(_) => []
  }

  function Printed(steps: seq<Step>): seq<string> {
    if steps == [] then [] else StepMessages(steps[0]) + Printed(steps[1..])
  }

  /** `sparksql`: no active session is a `RuntimeError` before anything else;
      the stripped, interpolated cell must be non-empty (a `ValueError`,
      raised outside the `try`); an exception from `spark.sql` or from a
      later step, given as `failure`, becomes a `RuntimeError` prefixed with
      `Error executing SQL query: `, after the steps before it have printed
      their lines, created the view and bound the variable. A `failure`
      whose `at` names no call of this run raises nothing. */
  function RunCell(args: CellArgs, hasSession: bool, cell: string, ns: map<string, string>,
                   failure: Option<Failure>, configured: int): Result<Run, MagicError>
  {
    if !hasSession then Err(NoActiveSession)
    else
      var query := Interpolate(Strip(cell), ns);
      if query == [] then Err(EmptyQuery)
      else
        var steps := Steps(args, configured);
        if failure.Some? && failure.value.at <= |steps| then
          var done := Before(steps, failure.value.at);
          Err(ExecutionFailed("Error executing SQL query: " + failure.value.message, done, Printed(done)))
        else
          Ok(Run(query, steps, Printed(steps), Given(args.variable)))
  }

  /** The session is checked before the cell is even looked at. */
  lemma SessionCheckedFirst(args: CellArgs, cell: string, ns: map<string, string>, failure: Option<Failure>, configured: int)
    ensures RunCell(args, false, cell, ns, failure, configured) == Err(NoActiveSession)
  {
  }

  /** With a session, the run stops with `EmptyQuery` exactly when stripping
      and interpolating leave nothing; a blank cell always does. */
  lemma EmptyQueryRule(args: CellArgs, cell: string, ns: map<string, string>, failure: Option<Failure>, configured: int)
    ensures (RunCell(args, true, cell, ns, failure, configured) == Err(EmptyQuery))
              <==> Interpolate(Strip(cell), ns) == []
    ensures (forall i :: 0 <= i < |cell| ==> IsSpace(cell[i])) ==>
              RunCell(args, true, cell, ns, failure, configured) == Err(EmptyQuery)
  {
    StripEmptyIff(cell);
  }

  lemma BracedUnstripped(w: string)
    ensures Strip("{" + w + "}") == "{" + w + "}"
  {
    var cell := "{" + w + "}";
    assert cell[0] == '{' && cell[|cell| - 1] == '}';
    StripNoEdgeSpace(cell, StrBlanks);
  }

  /** A cell holding just `{q}` runs the query `ns[q]`. */
  lemma SinglePlaceholderCell(w: string, ns: map<string, string>)
    requires IsName(w) && w in ns
    ensures Interpolate(Strip("{" + w + "}"), ns) == ns[w]
  {
    BracedUnstripped(w);
    BracedInterpolates(w, ns);
  }

  lemma BracedInterpolates(w: string, ns: map<string, string>)
    requires IsName(w) && w in ns
    ensures Interpolate("{" + w + "}", ns) == ns[w]
  {
    var s := "{" + w + "}";
    assert PlaceholderAt(s) == Some(w) by {
      PlaceholderRecognised(w, "");
      assert s + "" == s;
    }
    WholePlaceholder(s, w, ns);
  }

  lemma WholePlaceholder(s: string, w: string, ns: map<string, string>)
    requires PlaceholderAt(s) == Some(w) && |s| == |w| + 2 && w in ns
    ensures Interpolate(s, ns) == ns[w]
  {
    assert s[|w| + 2..] == [];
  }

  /** The emptiness check comes after interpolation and is not stripped
      again: `{q}` bound to the empty string is rejected, bound to a blank
      it is sent to Spark as the query. */
  lemma EmptinessAfterInterpolation(args: CellArgs, configured: int)
    ensures RunCell(args, true, "{q}", map["q" := ""], None, configured) == Err(EmptyQuery)
    ensures RunCell(args, true, "{q}", map["q" := " "], None, configured).Ok?
    ensures RunCell(args, true, "{q}", map["q" := " "], None, configured).value.query == " "
  {
    assert IsName("q");
    assert "{q}" == "{" + "q" + "}";
    SinglePlaceholderCell("q", map["q" := ""]);
    SinglePlaceholderCell("q", map["q" := " "]);
  }

  /** A non-empty query with no failure succeeds and carries exactly that
      query; a failing `spark.sql` is reported with its message, before any
      step has run. */
  lemma QueryPassedOn(args: CellArgs, cell: string, ns: map<string, string>, configured: int, m: string)
    requires Interpolate(Strip(cell), ns) != []
    ensures RunCell(args, true, cell, ns, None, configured).Ok?
    ensures RunCell(args, true, cell, ns, None, configured).value.query == Interpolate(Strip(cell), ns)
    ensures RunCell(args, true, cell, ns, Some(Failure(0, m)), configured)
            == Err(ExecutionFailed("Error executing SQL query: " + m, [], []))
  {
  }

  /** A step that raises leaves the effects of the steps before it: those
      steps ran, and their lines, which begin what a run without the failure
      prints, were printed; a failure naming no call of the run changes
      nothing. */
  lemma FailureKeepsEarlierSteps(args: CellArgs, cell: string, ns: map<string, string>, configured: int, f: Failure)
    requires Interpolate(Strip(cell), ns) != []
    ensures var steps := Steps(args, configured);
            var r := RunCell(args, true, cell, ns, Some(f), configured);
            if f.at <= |steps| then
              && r.Err? && r.error.ExecutionFailed?
              && r.error.message == "Error executing SQL query: " + f.message
              && r.error.done <= steps && (f.at > 0 ==> |r.error.done| == f.at - 1)
              && r.error.printed + Printed(steps[|r.error.done|..]) == Printed(steps)
            else
              r == RunCell(args, true, cell, ns, None, configured)
  {
    var steps := Steps(args, configured);
    if f.at <= |steps| {
      var done := Before(steps, f.at);
      assert RunCell(args, true, cell, ns, Some(f), configured)
             == Err(ExecutionFailed("Error executing SQL query: " + f.message, done, Printed(done)));
      PrefixPrinted(steps, done);
    }
  }

  /** The lines of a prefix of the steps begin the lines of all of them. */
  lemma PrefixPrinted(steps: seq<Step>, done: seq<Step>)
    requires done <= steps
    ensures Printed(done) + Printed(steps[|done|..]) == Printed(steps)
  {
    assert done + steps[|done|..] == steps;
    PrintedConcat(done, steps[|done|..]);
  }

  /** `%%sparksql --cache result` whose display raises: the cache line and
      the bind line are printed and `result` is bound before the
      `RuntimeError`. */
  lemma DisplayFailureKeepsBinding(cell: string, ns: map<string, string>, m: string)
    requires Interpolate(Strip(cell), ns) != []
    ensures var args := CellArgs(Some("result"), true, false, None, None);
            RunCell(args, true, cell, ns, Some(Failure(3, m)), DefaultLimit)
            == Err(ExecutionFailed("Error executing SQL query: " + m,
                                   [CacheLazy, BindVariable("result")],
                                   ["cache dataframe", "return dataframe to local variable 'df'"]))
  {
    var args := CellArgs(Some("result"), true, false, None, None);
    var steps := Steps(args, DefaultLimit);
    var done := [CacheLazy, BindVariable("result")];
    assert Given(args.variable) && !Given(args.view);
    assert steps == [CacheLazy] + [] + [BindVariable("result")] + [Display(DefaultLimit)];
    assert Before(steps, 3) == done;
    assert done[1..] == [BindVariable("result")];
    assert Printed([BindVariable("result")]) == [BindMessageAsWritten("result")] + Printed([]);
    assert Printed(done) == ["cache dataframe"] + Printed([BindVariable("result")]);
    assert Printed(done) == ["cache dataframe", "return dataframe to local variable 'df'"];
    assert |steps| == 3;
    assert RunCell(args, true, cell, ns, Some(Failure(3, m)), DefaultLimit)
           == Err(ExecutionFailed("Error executing SQL query: " + m, done, Printed(done)));
  }

  /** A table is displayed exactly when the effective limit is positive, with
      that limit; a per-call `--limit` overrides the configured one. */
  lemma DisplayRule(args: CellArgs, configured: int, n: int)
    ensures Display(n) in Steps(args, configured) <==> n == EffectiveLimit(args, configured) && n > 0
    ensures args.limit.Some? ==> (Display(n) in Steps(args, configured) <==> n == args.limit.value && n > 0)
  {
    var s := Steps(args, configured);
    if Display(n) in s {
      var i :| 0 <= i < |s| && s[i] == Display(n);
    }
  }

  lemma {:induction false} PrintedConcat(a: seq<Step>, b: seq<Step>)
    ensures Printed(a + b) == Printed(a) + Printed(b)
  {
    if a != [] {
      assert (a + b)[0] == a[0];
      assert (a + b)[1..] == a[1..] + b;
      PrintedConcat(a[1..], b);
    } else {
      assert a + b == b;
    }
  }

  /** A given variable name is bound, and the line printed for it names `df`
      whatever the variable is called. */
  lemma BindStep(args: CellArgs, configured: int)
    requires Given(args.variable)
    ensures BindVariable(args.variable.value) in Steps(args, configured)
    ensures "return dataframe to local variable 'df'" in Printed(Steps(args, configured))
  {
    var name := args.variable.value;
    var pre := StepsBeforeBind(args);
    var post := StepsAfterBind(args, configured);
    StepsAroundBind(args, configured);
    assert (pre + ([BindVariable(name)] + post))[|pre|] == BindVariable(name);
    PrintedAround(pre, BindVariable(name), post);
    assert (Printed(pre) + ([BindMessageAsWritten(name)] + Printed(post)))[|Printed(pre)|] == BindMessageAsWritten(name);
  }

  function StepsBeforeBind(args: CellArgs): seq<Step> {
    (if args.eager then [CacheEager] else if args.cache then [CacheLazy] else [])
    + (if Given(args.view) then [CreateView(args.view.value)] else [])
  }

  function StepsAfterBind(args: CellArgs, configured: int): seq<Step> {
    if EffectiveLimit(args, configured) > 0 then [Display(EffectiveLimit(args, configured))] else []
  }

  lemma StepsAroundBind(args: CellArgs, configured: int)
    requires Given(args.variable)
    ensures Steps(args, configured)
            == StepsBeforeBind(args) + ([BindVariable(args.variable.value)] + StepsAfterBind(args, configured))
  {
  }

  /** The lines printed around one step: those before it, its own, those after it. */
  lemma PrintedAround(pre: seq<Step>, s: Step, post: seq<Step>)
    ensures Printed(pre + ([s] + post)) == Printed(pre) + (StepMessages(s) + Printed(post))
  {
    PrintedConcat(pre, [s] + post);
    assert ([s] + post)[0] == s && ([s] + post)[1..] == post;
  }

  /** The DataFrame is returned exactly when a non-empty variable name is
      given, and then it is bound under that name. */
  lemma VariableRule(args: CellArgs, cell: string, ns: map<string, string>, configured: int)
    requires Interpolate(Strip(cell), ns) != []
    ensures RunCell(args, true, cell, ns, None, configured).value.returnsFrame <==> Given(args.variable)
    ensures Given(args.variable) ==>
              BindVariable(args.variable.value) in RunCell(args, true, cell, ns, None, configured).value.steps
  {
    if Given(args.variable) {
      BindStep(args, configured);
    }
  }

  /** A line that is no step's message is not printed. */
  lemma {:induction false} NotPrinted(steps: seq<Step>, line: string)
    requires forall i :: 0 <= i < |steps| ==> line !in StepMessages(steps[i])
    ensures line !in Printed(steps)
  {
    if steps != [] {
      assert line !in StepMessages(steps[0]);
      NotPrinted(steps[1..], line);
    }
  }

  /** The line naming a variable other than `df` is no step's message. */
  lemma NotAStepMessage(name: string, s: Step)
    requires name != "df"
    ensures BindMessage(name) !in StepMessages(s)
  {
    var m := BindMessage(name);
    var p := "return dataframe to local variable '";
    assert m[0] == 'r';
    if |name| == 2 {
      assert m[|p|] == name[0] && m[|p| + 1] == name[1];
      assert name[0] != 'd' || name[1] != 'f';
    }
  }

  /** For a variable not called `df` the line naming it is never printed. */
  lemma VariableNeverNamed(args: CellArgs, configured: int, name: string)
    requires name != "df"
    ensures BindMessage(name) !in Printed(Steps(args, configured))
  {
    var steps := Steps(args, configured);
    forall i | 0 <= i < |steps|
      ensures BindMessage(name) !in StepMessages(steps[i])
    {
      NotAStepMessage(name, steps[i]);
    }
    NotPrinted(steps, BindMessage(name));
  }

  /** The as-written message is the same whatever the variable is called;
      the corrected one tells variables apart. */
  lemma BindMessageNamesVariable(a: string, b: string)
    ensures BindMessageAsWritten("result") == BindMessageAsWritten("df")
    ensures BindMessage(a) == BindMessage(b) ==> a == b
  {
    var p := "return dataframe to local variable '";
    if BindMessage(a) == BindMessage(b) {
      assert |a| == |b|;
      assert forall i :: 0 <= i < |a| ==> a[i] == BindMessage(a)[|p| + i] == BindMessage(b)[|p| + i] == b[i];
    }
  }

  /** The magic's state: the configured display limit, 20 unless changed. */
  class SparkSqlMagic {
    var limit: int

    constructor()
      ensures limit == DefaultLimit
    {
      limit := DefaultLimit;
    }

    /** `%config`: sets the limit only for a `SetLimit` line, leaving it unchanged otherwise. */
    method Config(line: string) returns (cmd: ConfigCommand)
      modifies this
      ensures cmd == ParseConfigLine(line)
      ensures limit == if cmd.SetLimit? then cmd.limit else old(limit)
    {
      cmd := ParseConfigLine(line);
      if cmd.SetLimit? {
        limit := cmd.limit;
      }
    }

    /** `%%sparksql`, with this magic's configured limit. */
    method SparkSqlCell(args: CellArgs, hasSession: bool, cell: string, ns: map<string, string>,
                        failure: Option<Failure>) returns (r: Result<Run, MagicError>)
      ensures r == RunCell(args, hasSession, cell, ns, failure, limit)
      ensures r.Ok? && args.limit.None? ==> (Display(limit) in r.value.steps <==> limit > 0)
    {
      r := RunCell(args, hasSession, cell, ns, failure, limit);
      if r.Ok? {
        DisplayRule(args, limit, limit);
      }
    }
  }
}
