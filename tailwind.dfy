/*
 * The Tailwind CSS helper (src/django_quik/tailwind.py): the parser of the
 * `tailwind.mapping` file, the command line built from its mappings, and the
 * content list written into tailwind.config.js.
 *
 * Reading and writing files, asking the user, the Django app registry and
 * starting the Tailwind process are not modelled.
 */
module Tailwind {
  import opened Text

  /** One mapping: a stylesheet to compile and the file it compiles to. */
  datatype Mapping = Mapping(pathIn: string, pathOut: string)

  // ---------------------------------------------------------------------------
  // parse_mapping
  // ---------------------------------------------------------------------------

  /**
   * `content.splitlines()` for text whose only line boundary is LF: the
   * pieces between LFs, where a final LF does not open another line.
   */
  function SplitLines(content: string): (lines: seq<string>)
    ensures content == "" ==> lines == []
  {
    if content == "" then []
    else
      var parts := Split(content, "\n");
      if parts[|parts| - 1] == "" then parts[..|parts| - 1] else parts
  }

  /** A comment line: its stripped text starts with `#`. */
  predicate IsComment(line: string)
  {
    StartsWith(Strip(line), "#")
  }

  /**
   * The mapping one line yields: none for a comment or for a line with fewer
   * than two space-separated fields; otherwise its first two fields with
   * every double quote removed. Further fields are ignored.
   */
  function LineMapping(line: string): Option<Mapping>
  {
    if IsComment(line) then None
    else
      var fields := Split(line, " ");
      if |fields| < 2 then None
      else Some(Mapping(RemoveChar(fields[0], '"'), RemoveChar(fields[1], '"')))
  }

  /** The mappings of the lines, in line order. */
  function Mappings(lines: seq<string>): seq<Mapping>
  {
    if |lines| == 0 then []
    else
      var last := LineMapping(lines[|lines| - 1]);
      Mappings(lines[..|lines| - 1]) + (if last.Some? then [last.value] else [])
  }

  /** `parse_mapping`: one pass over the lines, appending each line's mapping. */
  method ParseMapping(content: string) returns (mappings: seq<Mapping>)
    ensures mappings == Mappings(SplitLines(content))
  {
    var lines := SplitLines(content);
    mappings := [];
    for i := 0 to |lines|
      invariant mappings == Mappings(lines[..i])
    {
      assert lines[..i + 1][..i] == lines[..i];
      var line := lines[i];
      if IsComment(line) {
        continue;
      }
      var fields := Split(line, " ");
      if |fields| < 2 {
        continue;
      }
      mappings := mappings + [Mapping(RemoveChar(fields[0], '"'), RemoveChar(fields[1], '"'))];
    }
    assert lines[..|lines|] == lines;
  }

  /** Every line yields at most one mapping. */
  lemma {:induction false} MappingsLength(lines: seq<string>)
    ensures |Mappings(lines)| <= |lines|
  {
    if |lines| > 0 {
      MappingsLength(lines[..|lines| - 1]);
    }
  }

  /** Lines are independent: the mappings of two blocks of lines are those of each, in order. */
  lemma {:induction false} MappingsAppend(a: seq<string>, b: seq<string>)
    ensures Mappings(a + b) == Mappings(a) + Mappings(b)
    decreases |b|
  {
    if |b| > 0 {
      var init := b[..|b| - 1];
      assert (a + b)[..|a + b| - 1] == a + init;
      MappingsAppend(a, init);
    } else {
      assert a + b == a;
    }
  }

  /** No path in the result holds a double quote. */
  lemma {:induction false} MappingsUnquoted(lines: seq<string>)
    ensures forall m :: m in Mappings(lines) ==> '"' !in m.pathIn && '"' !in m.pathOut
  {
    if |lines| > 0 {
      MappingsUnquoted(lines[..|lines| - 1]);
    }
  }

  /** A line without a space, a blank line in particular, yields nothing. */
  lemma NoSpaceNoMapping(line: string)
    requires ' ' !in line
    ensures LineMapping(line) == None
  {
    FindAbsent(line, " ");
  }

  /** A path that survives being written to a mapping line and read back. */
  predicate PlainPath(path: string)
  {
    forall k :: 0 <= k < |path| ==> !IsSpace(path[k]) && path[k] != '"'
  }

  /** A mapping the parser reads back: plain paths, the input one non-empty and not looking like a comment. */
  predicate Readable(m: Mapping)
  {
    PlainPath(m.pathIn) && PlainPath(m.pathOut) && |m.pathIn| > 0 && m.pathIn[0] != '#'
  }

  /** The line of the mapping file that states a mapping. */
  function MappingLine(m: Mapping): string
  {
    m.pathIn + " " + m.pathOut
  }

  /** A line of blanks then stripped text starting with `#` is a comment and yields no mapping. */
  lemma BlankBeforeHash(pad: string, text: string)
    requires forall k :: 0 <= k < |pad| ==> IsSpace(pad[k])
    requires IsStripped(text) && |text| > 0 && text[0] == '#'
    ensures IsComment(pad + text) && LineMapping(pad + text) == None
  {
    StripStripped(pad, text);
  }

  /**
   * `strip()` also removes non-ASCII whitespace: a line whose no-break space
   * precedes `#` is a comment, and a path holding one is not plain.
   */
  lemma NoBreakSpaceComment()
    ensures IsComment("\U{A0}" + "#x y") && LineMapping("\U{A0}" + "#x y") == None
    ensures !PlainPath("\U{A0}" + "#x")
  {
    var pad, text := "\U{A0}", "#x y";
    assert IsSpace(pad[0]) && IsStripped(text);
    BlankBeforeHash(pad, text);
    assert (pad + "#x")[0] == pad[0];
  }

  lemma PlainPathFree(path: string, c: char)
    requires PlainPath(path) && (IsSpace(c) || c == '"')
    ensures c !in path
  {
  }

  /** A line written for a readable mapping parses back to that mapping. */
  lemma LineMappingRoundTrip(m: Mapping)
    requires Readable(m)
    ensures LineMapping(MappingLine(m)) == Some(m)
  {
    var line := MappingLine(m);
    StripFirst(line);
    assert !IsComment(line);
    PlainPathFree(m.pathIn, ' ');
    PlainPathFree(m.pathOut, ' ');
    SplitPair(m.pathIn, m.pathOut, " ");
    PlainPathFree(m.pathIn, '"');
    PlainPathFree(m.pathOut, '"');
    RemoveCharAbsent(m.pathIn, '"');
    RemoveCharAbsent(m.pathOut, '"');
  }

  /** A line that starts with a quote is not a comment. */
  lemma QuoteNotComment(line: string)
    requires |line| > 0 && line[0] == '"'
    ensures !IsComment(line)
  {
    StripFirst(line);
  }

  /**
   * A path quoted because it holds a space is still cut at that space: the
   * quotes are removed only after the split, so `"a b" out` maps `a` to `b`.
   */
  lemma QuotedSpaceSplit(a: string, b: string, out: string)
    requires ' ' !in a && '"' !in a && ' ' !in b && '"' !in b
    ensures LineMapping(("\"" + a) + " " + ((b + "\"") + " " + out)) == Some(Mapping(a, b))
  {
    var first := "\"" + a;
    var second := b + "\"";
    var rest := second + " " + out;
    var line := first + " " + rest;
    QuoteNotComment(line);
    SplitCons(first, " ", rest);
    SplitCons(second, " ", out);
    assert first[1..] == a;
    RemoveCharAbsent(a, '"');
    RemoveCharAppend(b, "\"", '"');
    RemoveCharAbsent(b, '"');
    assert RemoveChar(first, '"') == a;
    assert RemoveChar(second, '"') == b + RemoveChar("\"", '"') == b;
    LineFields(line, first, second, Split(out, " "));
  }

  /** The mapping of a line that is not a comment and splits into at least two fields. */
  lemma LineFields(line: string, first: string, second: string, more: seq<string>)
    requires !IsComment(line) && Split(line, " ") == [first] + ([second] + more)
    ensures LineMapping(line) == Some(Mapping(RemoveChar(first, '"'), RemoveChar(second, '"')))
  {
  }

  /** The example line `"my in.scss" out.css` maps `my` to `in.scss`. */
  lemma QuotedSpaceExample()
    ensures LineMapping(("\"" + "my") + " " + (("in.scss" + "\"") + " " + "out.css")) == Some(Mapping("my", "in.scss"))
  {
    QuotedSpaceSplit("my", "in.scss", "out.css");
  }

  /**
   * The fields of a line as its quotes intend: spaces outside double quotes
   * separate fields, spaces inside them belong to the field, and the quotes
   * themselves are dropped. `quoted` says whether a quote is open and `word`
   * holds the field read so far.
   */
  function QuotedFields(s: string, quoted: bool, word: string): (fields: seq<string>)
    ensures |fields| >= 1
    ensures '"' !in word ==> forall k :: 0 <= k < |fields| ==> '"' !in fields[k]
    decreases |s|
  {
    if |s| == 0 then [word]
    else if s[0] == '"' then QuotedFields(s[1..], !quoted, word)
    else if s[0] == ' ' && !quoted then [word] + QuotedFields(s[1..], false, "")
    else QuotedFields(s[1..], quoted, word + [s[0]])
  }

  /** The mapping of a line whose fields are read with quoted spaces kept. */
  function LineMappingCorrected(line: string): Option<Mapping>
  {
    if IsComment(line) then None
    else
      var fields := QuotedFields(line, false, "");
      if |fields| < 2 then None
      else Some(Mapping(fields[0], fields[1]))
  }

  /** A path between double quotes. */
  function Quoted(path: string): string
  {
    "\"" + path + "\""
  }

  /** The line that states a mapping with both paths quoted. */
  function QuotedMappingLine(m: Mapping): string
  {
    Quoted(m.pathIn) + " " + Quoted(m.pathOut)
  }

  /** Inside quotes, text without a quote joins the current field. */
  lemma {:induction false} QuotedRun(x: string, rest: string, word: string)
    requires '"' !in x
    ensures QuotedFields(x + rest, true, word) == QuotedFields(rest, true, word + x)
    decreases |x|
  {
    if |x| == 0 {
      assert x + rest == rest && word + x == word;
    } else {
      assert (x + rest)[0] == x[0] && (x + rest)[1..] == x[1..] + rest;
      QuotedRun(x[1..], rest, word + [x[0]]);
      assert word + [x[0]] + x[1..] == word + x;
    }
  }

  /** Outside quotes, text without quotes is split at its spaces, as `split(" ")` does. */
  lemma {:induction false} UnquotedFields(s: string, word: string)
    requires '"' !in s && '"' !in word && ' ' !in word
    ensures QuotedFields(s, false, word) == Split(word + s, " ")
    decreases |s|
  {
    if |s| == 0 {
      assert word + s == word;
      FindAbsent(word, " ");
    } else if s[0] == ' ' {
      UnquotedFields(s[1..], "");
      assert word + s == word + " " + s[1..];
      FindAfterFree(word, " ", s[1..]);
      SplitStep(word + s, " ", |word|);
      assert (word + s)[..|word|] == word && (word + s)[|word| + 1..] == "" + s[1..];
    } else {
      UnquotedFields(s[1..], word + [s[0]]);
      assert word + [s[0]] + s[1..] == word + s;
    }
  }

  /** A quote opens or closes quoting and is dropped. */
  lemma QuoteStep(t: string, quoted: bool, word: string)
    ensures QuotedFields("\"" + t, quoted, word) == QuotedFields(t, !quoted, word)
  {
    assert ("\"" + t)[1..] == t;
  }

  /** A space outside quotes ends the current field. */
  lemma SpaceStep(t: string, word: string)
    ensures QuotedFields(" " + t, false, word) == [word] + QuotedFields(t, false, "")
  {
    assert (" " + t)[1..] == t;
  }

  /** A quoted path without quotes of its own joins the current field whole. */
  lemma QuotedWord(path: string, rest: string, word: string)
    requires '"' !in path
    ensures QuotedFields(Quoted(path) + rest, false, word) == QuotedFields(rest, false, word + path)
  {
    var q := "\"";
    assert Quoted(path) + rest == q + (path + (q + rest));
    QuoteStep(path + (q + rest), false, word);
    QuotedRun(path, q + rest, word);
    QuoteStep(rest, true, word + path);
  }

  /** The fields of a quoted mapping line are its two paths, spaces included. */
  lemma QuotedLineFields(m: Mapping)
    requires '"' !in m.pathIn && '"' !in m.pathOut
    ensures QuotedFields(QuotedMappingLine(m), false, "") == [m.pathIn, m.pathOut]
  {
    var last := Quoted(m.pathOut);
    assert QuotedMappingLine(m) == Quoted(m.pathIn) + (" " + last);
    QuotedWord(m.pathIn, " " + last, "");
    assert "" + m.pathIn == m.pathIn;
    SpaceStep(last, m.pathIn);
    assert last + "" == last;
    QuotedWord(m.pathOut, "", "");
    assert "" + m.pathOut == m.pathOut;
  }

  /** A quoted mapping line reads back to its mapping, spaces in the paths included. */
  lemma QuotedLineRoundTrip(m: Mapping)
    requires '"' !in m.pathIn && '"' !in m.pathOut
    ensures LineMappingCorrected(QuotedMappingLine(m)) == Some(m)
  {
    QuoteNotComment(QuotedMappingLine(m));
    QuotedLineFields(m);
  }

  /** On a line without quotes the corrected reading is the one the parser makes. */
  lemma CorrectedAgreesUnquoted(line: string)
    requires '"' !in line
    ensures LineMappingCorrected(line) == LineMapping(line)
  {
    UnquotedFields(line, "");
    assert "" + line == line;
    var fields := Split(line, " ");
    if |fields| >= 2 {
      RemoveCharAbsent(fields[0], '"');
      RemoveCharAbsent(fields[1], '"');
    }
  }

  /** The lines written for a list of mappings. */
  function MappingLines(ms: seq<Mapping>): (lines: seq<string>)
    ensures |lines| == |ms| && forall i :: 0 <= i < |ms| ==> lines[i] == MappingLine(ms[i])
  {
    seq(|ms|, i requires 0 <= i < |ms| => MappingLine(ms[i]))
  }

  lemma {:induction false} MappingsOfLines(ms: seq<Mapping>)
    requires forall i :: 0 <= i < |ms| ==> Readable(ms[i])
    ensures Mappings(MappingLines(ms)) == ms
  {
    if |ms| > 0 {
      var init := ms[..|ms| - 1];
      var last := ms[|ms| - 1];
      MappingsOfLines(init);
      MappingLinesStep(init, last);
      assert init + [last] == ms;
    }
  }

  /** One more readable mapping adds one more line, which reads back to it. */
  lemma MappingLinesStep(init: seq<Mapping>, last: Mapping)
    requires Mappings(MappingLines(init)) == init && Readable(last)
    ensures Mappings(MappingLines(init + [last])) == init + [last]
  {
    var line := MappingLine(last);
    LineMappingRoundTrip(last);
    assert MappingLines(init + [last]) == MappingLines(init) + [line];
    assert Mappings([line]) == [last] by {
      assert [line][..0] == [];
    }
    MappingsAppend(MappingLines(init), [line]);
  }

  /**
   * The round trip of the mapping file: a file with one line per readable
   * mapping, each ended by LF, parses back to the same mappings in the same
   * order.
   */
  lemma MappingFileRoundTrip(ms: seq<Mapping>)
    requires forall i :: 0 <= i < |ms| ==> Readable(ms[i])
    ensures Mappings(SplitLines(Join(MappingLines(ms) + [""], "\n"))) == ms
  {
    var lines := MappingLines(ms);
    MappingsOfLines(ms);
    if |ms| > 0 {
      forall k | 0 <= k < |lines + [""]| ensures '\n' !in (lines + [""])[k] {
        if k < |lines| {
          PlainPathFree(ms[k].pathIn, '\n');
          PlainPathFree(ms[k].pathOut, '\n');
        }
      }
      SplitJoin(lines + [""], "\n");
      var content := Join(lines + [""], "\n");
      assert content != "" by {
        JoinAppend(lines, [""], "\n");
      }
      assert (lines + [""])[..|lines|] == lines;
    } else {
      assert lines + [""] == [""];
    }
  }

  // ---------------------------------------------------------------------------
  // build_command_line_from_mapping
  // ---------------------------------------------------------------------------

  function Ins(ms: seq<Mapping>): (paths: seq<string>)
    ensures |paths| == |ms| && forall i :: 0 <= i < |ms| ==> paths[i] == ms[i].pathIn
  {
    seq(|ms|, i requires 0 <= i < |ms| => ms[i].pathIn)
  }

  function Outs(ms: seq<Mapping>): (paths: seq<string>)
    ensures |paths| == |ms| && forall i :: 0 <= i < |ms| ==> paths[i] == ms[i].pathOut
  {
    seq(|ms|, i requires 0 <= i < |ms| => ms[i].pathOut)
  }

  /**
   * `build_command_line_from_mapping`: None for no mappings, otherwise one
   * tailwindcss invocation that watches every input and writes every output.
   */
  function BuildCommandLine(ms: seq<Mapping>): Option<string>
  {
    if |ms| == 0 then None
    else Some("npx tailwindcss -i " + Join(Ins(ms), " ") + " -o " + Join(Outs(ms), " ") + " --watch")
  }

  /** The words of the command, in order. */
  function CommandWords(ms: seq<Mapping>): seq<string>
  {
    ["npx", "tailwindcss", "-i"] + Ins(ms) + ["-o"] + Outs(ms) + ["--watch"]
  }

  /** The command is its words joined by single spaces. */
  lemma CommandLineWords(ms: seq<Mapping>)
    requires |ms| > 0
    ensures BuildCommandLine(ms) == Some(Join(CommandWords(ms), " "))
  {
    var ins, outs := Ins(ms), Outs(ms);
    var head: seq<string> := ["npx", "tailwindcss", "-i"];
    JoinAppend(head, ins, " ");
    JoinAppend(head + ins, ["-o"], " ");
    JoinAppend(head + ins + ["-o"], outs, " ");
    JoinAppend(head + ins + ["-o"] + outs, ["--watch"], " ");
    CommandHead();
    var i, o := Join(ins, " "), Join(outs, " ");
    assert Join(["-o"], " ") == "-o" && Join(["--watch"], " ") == "--watch";
    assert Join(head + ins, " ") == "npx tailwindcss -i" + " " + i;
    assert Join(head + ins + ["-o"], " ") == "npx tailwindcss -i" + " " + i + " " + "-o";
    assert Join(head + ins + ["-o"] + outs, " ") == "npx tailwindcss -i" + " " + i + " " + "-o" + " " + o;
    assert CommandWords(ms) == head + ins + ["-o"] + outs + ["--watch"];
    var joined := Join(CommandWords(ms), " ");
    assert joined == "npx tailwindcss -i" + " " + i + " " + "-o" + " " + o + " " + "--watch";
    assert "npx tailwindcss -i" + " " == "npx tailwindcss -i ";
    assert " " + "-o" + " " == " -o ";
    assert " " + "--watch" == " --watch";
    assert joined == "npx tailwindcss -i " + i + " -o " + o + " --watch";
  }

  lemma CommandHead()
    ensures Join(["npx", "tailwindcss", "-i"], " ") == "npx tailwindcss -i"
  {
    var head: seq<string> := ["npx", "tailwindcss", "-i"];
    assert head[1..] == ["tailwindcss", "-i"];
    assert head[1..][1..] == ["-i"];
  }

  /**
   * `command_line.split(" ")`, the argument list handle_tailwind_build runs:
   * when no path holds a space, exactly npx, tailwindcss, -i, the inputs,
   * -o, the outputs and --watch, each mapping's paths in mapping order.
   */
  lemma CommandLineSplit(ms: seq<Mapping>)
    requires |ms| > 0
    requires forall i :: 0 <= i < |ms| ==> ' ' !in ms[i].pathIn && ' ' !in ms[i].pathOut
    ensures Split(BuildCommandLine(ms).value, " ") == CommandWords(ms)
  {
    CommandLineWords(ms);
    var words := CommandWords(ms);
    var n := |ms|;
    forall k | 0 <= k < |words| ensures ' ' !in words[k] {
      if 3 <= k < 3 + n {
        assert words[k] == ms[k - 3].pathIn;
      } else if 4 + n <= k < 4 + 2 * n {
        assert words[k] == ms[k - 4 - n].pathOut;
      }
    }
    SplitJoin(words, " ");
  }

  // ---------------------------------------------------------------------------
  // The content list of tailwind.config.js
  // ---------------------------------------------------------------------------

  /** One entry of the content list: the pattern, quoted and indented. */
  function ContentEntry(pattern: string): string
  {
    "    \"" + pattern + "\""
  }

  function ContentEntries(patterns: seq<string>): (entries: seq<string>)
    ensures |entries| == |patterns| && forall i :: 0 <= i < |patterns| ==> entries[i] == ContentEntry(patterns[i])
  {
    seq(|patterns|, i requires 0 <= i < |patterns| => ContentEntry(patterns[i]))
  }

  /** The content list: its entries joined by a comma and a line break, inside brackets. */
  function ContentList(patterns: seq<string>): string
  {
    "[\n" + Join(ContentEntries(patterns), ",\n") + "\n  ]"
  }

  /**
   * What the loop of generate_tailwind_config_file has written after `i`
   * patterns: the opening bracket, the first `i` entries, and a separator
   * when more entries follow.
   */
  function ContentPrefix(patterns: seq<string>, i: nat): string
    requires i <= |patterns|
  {
    "[\n" + Join(ContentEntries(patterns[..i]), ",\n") + (if 0 < i < |patterns| then ",\n" else "")
  }

  /** One turn of the loop: the next entry, then a separator unless it is the last. */
  lemma ContentPrefixStep(patterns: seq<string>, i: nat)
    requires i < |patterns|
    ensures ContentPrefix(patterns, i + 1) ==
              ContentPrefix(patterns, i) + ContentEntry(patterns[i]) + (if i < |patterns| - 1 then ",\n" else "")
  {
    var done := ContentEntries(patterns[..i]);
    var entry := ContentEntry(patterns[i]);
    assert patterns[..i + 1] == patterns[..i] + [patterns[i]];
    assert ContentEntries(patterns[..i + 1]) == done + [entry];
    if i > 0 {
      JoinAppend(done, [entry], ",\n");
      assert Join([entry], ",\n") == entry;
    } else {
      assert done == [];
      assert Join(done + [entry], ",\n") == entry;
    }
  }

  /**
   * The loop of generate_tailwind_config_file that formats the content list:
   * every entry is followed by a separator except the last.
   */
  method StructuredContent(patterns: seq<string>) returns (content: string)
    ensures content == ContentList(patterns)
  {
    content := "[\n";
    assert content == ContentPrefix(patterns, 0) by {
      assert patterns[..0] == [];
    }
    for i := 0 to |patterns|
      invariant content == ContentPrefix(patterns, i)
    {
      ContentPrefixStep(patterns, i);
      content := content + ContentEntry(patterns[i]);
      if i < |patterns| - 1 {
        content := content + ",\n";
      }
    }
    assert patterns[..|patterns|] == patterns;
    content := content + "\n  ]";
  }

  /**
   * The content pattern generate_tailwind_config_file builds for a watched
   * directory, given that directory relative to the working directory.
   */
  function WatchPattern(relativeDir: string): string
  {
    "./" + relativeDir + "/**/*.{html,js,py}"
  }

  /**
   * The pattern of a directory whose name has no line break does not hold the
   * separator of the content list, though its suffix holds commas.
   */
  lemma WatchPatternFree(relativeDir: string)
    requires '\n' !in relativeDir
    ensures !Contains(WatchPattern(relativeDir), ",\n")
    ensures ',' in WatchPattern(relativeDir)
  {
    var p := WatchPattern(relativeDir);
    assert '\n' !in p;
    FindSpec(p, ",\n");
    forall j: nat | j + 2 <= |p| ensures !OccursAt(p, ",\n", j) {
      assert p[j..j + 2][1] == p[j + 1];
    }
    assert p[|p| - 4] == "/**/*.{html,js,py}"[14] == ',';
  }

  /**
   * Text wrapped between an opening and a closing part holds a two-character
   * separator only where the text does, when neither part holds the
   * separator's first character and the closing part does not start with its
   * second.
   */
  lemma WrappedFree(open: string, x: string, close: string, sep: string)
    requires |sep| == 2 && |close| > 0 && Find(x, sep) == None
    requires sep[0] !in open && sep[0] !in close && close[0] != sep[1]
    ensures Find(open + x + close, sep) == None && NoOverhang(open + x + close, sep)
  {
    var e := open + x + close;
    var n := |open| + |x|;
    FindSpec(x, sep);
    FindSpec(e, sep);
    forall j: nat | j + 2 <= |e| ensures !OccursAt(e, sep, j) {
      if j < |open| {
        assert e[j] == open[j];
      } else if j + 1 < n {
        assert e[j..j + 2] == x[j - |open|..j - |open| + 2];
        assert !OccursAt(x, sep, j - |open|);
      } else if j < n {
        assert e[j + 1] == close[0];
      } else {
        assert e[j] == close[j - n];
      }
    }
    assert e[|e| - 1..] == [close[|close| - 1]];
  }

  /**
   * An entry holds the separator only where its pattern does: the quotes
   * around the pattern are neither a comma nor a line break.
   */
  lemma ContentEntryFree(pattern: string)
    requires !Contains(pattern, ",\n")
    ensures Find(ContentEntry(pattern), ",\n") == None && NoOverhang(ContentEntry(pattern), ",\n")
  {
    WrappedFree("    \"", pattern, "\"", ",\n");
  }

  /**
   * The content list reads back: between its brackets, splitting at the
   * separators gives one entry per pattern, in order, when no pattern holds
   * the separator itself.
   */
  lemma ContentListEntries(patterns: seq<string>)
    requires |patterns| > 0
    requires forall i :: 0 <= i < |patterns| ==> !Contains(patterns[i], ",\n")
    ensures var list := ContentList(patterns);
            && |list| >= 6 && list[..2] == "[\n" && list[|list| - 4..] == "\n  ]"
            && Split(list[2..|list| - 4], ",\n") == ContentEntries(patterns)
  {
    var entries := ContentEntries(patterns);
    var inner := Join(entries, ",\n");
    var list := ContentList(patterns);
    assert list == "[\n" + inner + "\n  ]";
    assert list[2..|list| - 4] == inner;
    forall k | 0 <= k < |entries|
      ensures Find(entries[k], ",\n") == None && NoOverhang(entries[k], ",\n")
    {
      ContentEntryFree(patterns[k]);
    }
    SplitJoinFree(entries, ",\n");
  }
}
