/*
 * The header codec of the proxy (src/django_quik/server/http.py): the start
 * line, the header lines as an ordered multi-map, case-insensitive lookup,
 * in-place overwrite, and serialisation back to bytes.
 *
 * An OrderedDict[str, List[str]] is a sequence of fields in insertion order,
 * each a name with its list of values; the names of a dict are distinct.
 */
module HttpHeaders {
  import opened Text
  import HttpStream

  /** The line terminator of HTTP/1.x header blocks. */
  const CRLF: string := "\r\n"

  // ---------------------------------------------------------------------------
  // The start line
  // ---------------------------------------------------------------------------

  /** (request_method, request_path, http_version), or the three words of a status line. */
  datatype StartLine = StartLine(requestMethod: string, path: string, version: string)

  /** The start line as build_header_bytes writes it, without its CR LF. */
  function StartLineText(info: StartLine): string
  {
    info.requestMethod + " " + info.path + " " + info.version
  }

  /**
   * `extract_http_starting_header_info`: split on single spaces; with at
   * least three fields, the first, the interior ones re-joined, and the last.
   */
  function ExtractStartLine(line: string): Option<StartLine>
  {
    var values := Split(line, " ");
    if |values| >= 3 then
      Some(StartLine(values[0], Join(values[1..|values| - 1], " "), values[|values| - 1]))
    else None
  }

  /**
   * A split into at least three parts at a one-character separator: the
   * first part, the interior re-joined and the last part, put back together
   * with the separator, are the original text, and the outer parts hold no
   * separator.
   */
  lemma SplitOuter(line: string, sep: string)
    requires |sep| == 1 && |Split(line, sep)| >= 3
    ensures var values := Split(line, sep);
            && values[0] + sep + Join(values[1..|values| - 1], sep) + sep + values[|values| - 1] == line
            && sep[0] !in values[0] && sep[0] !in values[|values| - 1]
  {
    var values := Split(line, sep);
    var n := |values|;
    var middle := values[1..n - 1];
    JoinSplit(line, sep);
    assert values == [values[0]] + (middle + [values[n - 1]]);
    JoinCons(values[0], middle + [values[n - 1]], sep);
    JoinAppend(middle, [values[n - 1]], sep);
    Regroup(values[0] + sep, Join(middle, sep), sep, values[n - 1]);
    SplitPiecesFree(line, sep);
    assert sep == [sep[0]];
    FindChar(values[0], sep[0]);
    FindChar(values[n - 1], sep[0]);
  }

  /** A result of ExtractStartLine writes back to the very line it came from. */
  lemma ExtractStartLineInverse(line: string)
    ensures ExtractStartLine(line).Some? ==>
              && StartLineText(ExtractStartLine(line).value) == line
              && ' ' !in ExtractStartLine(line).value.requestMethod
              && ' ' !in ExtractStartLine(line).value.version
  {
    if |Split(line, " ")| >= 3 {
      SplitOuter(line, " ");
    }
  }

  /** A line has a start-line reading exactly when it holds at least two spaces. */
  lemma ExtractStartLineSpaces(line: string)
    ensures ExtractStartLine(line).Some? <==>
              exists i, j :: 0 <= i < j < |line| && line[i] == ' ' && line[j] == ' '
  {
    var values := Split(line, " ");
    ExtractStartLineInverse(line);
    if |values| >= 3 {
      var info := ExtractStartLine(line).value;
      var i := |info.requestMethod|;
      var j := |info.requestMethod| + 1 + |info.path|;
      assert line[i] == ' ' && line[j] == ' ';
    } else {
      JoinSplit(line, " ");
      SplitPiecesFree(line, " ");
      FindChar(values[0], ' ');
      if |values| == 1 {
        assert line == values[0];
      } else {
        FindChar(values[1], ' ');
        assert line == values[0] + " " + values[1];
        forall i, j | 0 <= i < j < |line| && line[i] == ' '
          ensures line[j] != ' '
        {
          assert i == |values[0]|;
          assert line[j] == values[1][j - |values[0]| - 1];
        }
      }
    }
  }

  /**
   * Writing a start line and extracting it again gives it back, provided the
   * method and the version hold no space (the path may).
   */
  lemma ExtractStartLineText(info: StartLine)
    requires ' ' !in info.requestMethod && ' ' !in info.version
    ensures ExtractStartLine(StartLineText(info)) == Some(info)
  {
    var sp := " ";
    var middle := Split(info.path, sp);
    var parts := [info.requestMethod] + middle + [info.version];
    JoinSplit(info.path, sp);
    SplitPiecesFree(info.path, sp);
    forall k | 0 <= k < |middle| ensures ' ' !in middle[k] {
      FindChar(middle[k], ' ');
    }
    JoinCons(info.requestMethod, middle + [info.version], sp);
    JoinAppend(middle, [info.version], sp);
    assert parts[1..] == middle + [info.version];
    assert Join(parts, sp) == StartLineText(info);
    SplitJoin(parts, sp);
    assert parts[1..|parts| - 1] == middle;
  }

  /** The request line of the project's own test. */
  lemma ExtractStartLineExample()
    ensures ExtractStartLine("GET / HTTP/1.0") == Some(StartLine("GET", "/", "HTTP/1.0"))
  {
    var info := StartLine("GET", "/", "HTTP/1.0");
    assert StartLineText(info) == "GET / HTTP/1.0";
    ExtractStartLineText(info);
  }

  // ---------------------------------------------------------------------------
  // Header fields
  // ---------------------------------------------------------------------------

  /** One key of the dict with its list of values. */
  datatype Field = Field(name: string, values: seq<string>)

  /** An OrderedDict[str, List[str]]: fields in insertion order. */
  type Headers = seq<Field>

  function Names(h: Headers): (names: seq<string>)
    ensures |names| == |h| && forall i :: 0 <= i < |h| ==> names[i] == h[i].name
  {
    seq(|h|, i requires 0 <= i < |h| => h[i].name)
  }

  /** No two fields share a name, as in any dict. */
  predicate UniqueNames(h: Headers)
  {
    forall i, j :: 0 <= i < j < |h| ==> h[i].name != h[j].name
  }

  /** What parse_headers builds: a dict whose every value list is non-empty. */
  predicate WellFormed(h: Headers)
  {
    UniqueNames(h) && forall i :: 0 <= i < |h| ==> |h[i].values| > 0
  }

  /** `headers.get(name, [])`: the values stored under exactly this name. */
  function ValuesOf(h: Headers, name: string): seq<string>
  {
    if |h| == 0 then []
    else if h[0].name == name then h[0].values
    else ValuesOf(h[1..], name)
  }

  /**
   * One header line split at its first colon into a stripped key and a
   * stripped value; None for a line without a colon.
   */
  function LineEntry(line: string): Option<(string, string)>
  {
    match Find(line, ":")
    case None => None
    case Some(i) => Some((Strip(line[..i]), Strip(line[i + 1..])))
  }

  /**
   * Store one value: appended when the key already holds a non-empty list,
   * otherwise the key is set to a one-element list (in place if present, at
   * the end if new).
   */
  function AddValue(h: Headers, key: string, value: string): Headers
  {
    if |h| == 0 then [Field(key, [value])]
    else if h[0].name == key then
      [Field(key, if |h[0].values| > 0 then h[0].values + [value] else [value])] + h[1..]
    else [h[0]] + AddValue(h[1..], key, value)
  }

  /** The effect of one header line on the dict. */
  function AddLine(h: Headers, line: string): Headers
  {
    match LineEntry(line)
    case None => h
    case Some((key, value)) => AddValue(h, key, value)
  }

  /** The dict after the given lines, starting from `h`. */
  function AddLines(h: Headers, lines: seq<string>): Headers
  {
    if |lines| == 0 then h
    else AddLine(AddLines(h, lines[..|lines| - 1]), lines[|lines| - 1])
  }

  /** The headers parse_headers builds from its lines. */
  function ParseFields(lines: seq<string>): Headers
  {
    AddLines([], lines)
  }

  /**
   * `parse_headers`: split the decoded header block on CR LF, fold every line
   * that has a colon into the dict (the start line included), and read the
   * start line from line 0.
   */
  method ParseHeaders(data: string) returns (info: Option<StartLine>, headers: Headers)
    ensures headers == ParseFields(Split(data, CRLF))
    ensures info == ExtractStartLine(Split(data, CRLF)[0])
  {
    var lines := Split(data, CRLF);
    headers := [];
    for i := 0 to |lines|
      invariant headers == AddLines([], lines[..i])
    {
      AddLinesStep(lines, i);
      var line := lines[i];
      var found := Find(line, ":");
      if found.None? {
        assert LineEntry(line).None?;
        continue;
      }
      var colon := found.value;
      var key, value := Strip(line[..colon]), Strip(line[colon + 1..]);
      assert LineEntry(line) == Some((key, value));
      headers := AddValue(headers, key, value);
    }
    assert lines[..|lines|] == lines;
    assert headers == ParseFields(lines);
    info := None;
    if |lines| > 0 {
      info := ExtractStartLine(lines[0]);
    }
  }

  /** One more line folds that line into the dict. */
  lemma AddLinesStep(lines: seq<string>, i: nat)
    requires i < |lines|
    ensures AddLines([], lines[..i + 1]) == AddLine(AddLines([], lines[..i]), lines[i])
  {
    assert lines[..i + 1][..i] == lines[..i];
  }

  // Properties of the parsed dict

  lemma {:induction false} AddValueValues(h: Headers, key: string, value: string, name: string)
    ensures ValuesOf(AddValue(h, key, value), name)
              == ValuesOf(h, name) + (if name == key then [value] else [])
  {
    if |h| > 0 && h[0].name != key {
      AddValueValues(h[1..], key, value, name);
      assert (([h[0]] + AddValue(h[1..], key, value)))[1..] == AddValue(h[1..], key, value);
    }
  }

  lemma {:induction false} AddValueNames(h: Headers, key: string, value: string)
    ensures Names(AddValue(h, key, value)) == if key in Names(h) then Names(h) else Names(h) + [key]
  {
    if |h| > 0 && h[0].name != key {
      AddValueNames(h[1..], key, value);
      assert Names(h) == [h[0].name] + Names(h[1..]);
      assert Names([h[0]] + AddValue(h[1..], key, value)) == [h[0].name] + Names(AddValue(h[1..], key, value));
    } else if |h| > 0 {
      assert Names(h)[0] == key;
    }
  }

  lemma {:induction false} AddValueWellFormed(h: Headers, key: string, value: string)
    requires WellFormed(h)
    ensures WellFormed(AddValue(h, key, value))
  {
    var r := AddValue(h, key, value);
    AddValueNames(h, key, value);
    if |h| > 0 && h[0].name != key {
      AddValueWellFormed(h[1..], key, value);
    }
    assert forall i :: 0 <= i < |r| ==> Names(r)[i] == r[i].name;
  }

  /** The values each key receives are those of its lines, in line order. */
  function LineValues(lines: seq<string>, name: string): seq<string>
  {
    if |lines| == 0 then []
    else
      LineValues(lines[..|lines| - 1], name) +
      match LineEntry(lines[|lines| - 1])
      case Some((key, value)) => if key == name then [value] else []
      case None => []
  }

  /** Parsing keeps the dict shape: distinct names, no empty value list. */
  lemma {:induction false} ParseFieldsWellFormed(lines: seq<string>)
    ensures WellFormed(ParseFields(lines))
  {
    if |lines| > 0 {
      ParseFieldsWellFormed(lines[..|lines| - 1]);
      match LineEntry(lines[|lines| - 1])
      case None =>
      case Some((key, value)) =>
        AddValueWellFormed(ParseFields(lines[..|lines| - 1]), key, value);
    }
  }

  /**
   * Under each key the parsed dict holds the stripped values of exactly the
   * lines with that stripped key, in their order; other lines count for nothing.
   */
  lemma {:induction false} ParseFieldsValues(lines: seq<string>, name: string)
    ensures ValuesOf(ParseFields(lines), name) == LineValues(lines, name)
  {
    if |lines| > 0 {
      ParseFieldsValues(lines[..|lines| - 1], name);
      match LineEntry(lines[|lines| - 1])
      case None =>
      case Some((key, value)) =>
        AddValueValues(ParseFields(lines[..|lines| - 1]), key, value, name);
    }
  }

  lemma {:induction false} AddLinesAppend(h: Headers, a: seq<string>, b: seq<string>)
    ensures AddLines(h, a + b) == AddLines(AddLines(h, a), b)
  {
    if |b| == 0 {
      assert a + b == a;
    } else {
      assert (a + b)[..|a + b| - 1] == a + b[..|b| - 1];
      AddLinesAppend(h, a, b[..|b| - 1]);
    }
  }

  /** A line without a colon can be removed without changing the result. */
  lemma DropLine(a: seq<string>, line: string, b: seq<string>)
    requires LineEntry(line) == None
    ensures ParseFields(a + [line] + b) == ParseFields(a + b)
  {
    AddLinesAppend([], a + [line], b);
    AddLinesAppend([], a, b);
    assert (a + [line])[..|a|] == a;
  }

  // ---------------------------------------------------------------------------
  // Lookup and overwrite
  // ---------------------------------------------------------------------------

  /** `header.lower() == name.lower()`, on ASCII names. */
  predicate NameMatches(f: Field, name: string)
  {
    Lower(f.name) == Lower(name)
  }

  /** Field i matches `name` ignoring case and has a value to offer. */
  predicate Offers(h: Headers, i: int, name: string)
  {
    0 <= i < |h| && NameMatches(h[i], name) && |h[i].values| > 0
  }

  /**
   * `header_value`: the first value of the first key, in insertion order,
   * that matches `name` ignoring case and has a value; a matching key with
   * an empty list is passed over.
   */
  function HeaderValue(h: Headers, name: string): (r: Option<string>)
    ensures r.None? <==> forall i :: !Offers(h, i, name)
    ensures r.Some? ==>
              exists i :: Offers(h, i, name) && r.value == h[i].values[0]
                          && forall j :: 0 <= j < i ==> !Offers(h, j, name)
  {
    if |h| == 0 then None
    else if NameMatches(h[0], name) && |h[0].values| > 0 then
      assert Offers(h, 0, name);
      Some(h[0].values[0])
    else
      var r := HeaderValue(h[1..], name);
      assert forall i | 1 <= i :: Offers(h, i, name) <==> Offers(h[1..], i - 1, name);
      assert !Offers(h, 0, name);
      if r.Some? then
        var k :| Offers(h[1..], k, name) && r.value == h[1..][k].values[0]
                 && forall j :: 0 <= j < k ==> !Offers(h[1..], j, name);
        assert Offers(h, k + 1, name) && r.value == h[k + 1].values[0];
        r
      else r
  }

  /** `headers[name] = [value]`: replaces the list of the key spelled exactly `name`, or appends it. */
  function SetField(h: Headers, name: string, value: string): Headers
  {
    if |h| == 0 then [Field(name, [value])]
    else if h[0].name == name then [Field(name, [value])] + h[1..]
    else [h[0]] + SetField(h[1..], name, value)
  }

  /** The index of the first key matching `name` ignoring case. */
  function FirstMatch(h: Headers, name: string): (r: Option<nat>)
    ensures r.Some? ==> r.value < |h| && NameMatches(h[r.value], name)
    ensures r.Some? ==> forall j :: 0 <= j < r.value ==> !NameMatches(h[j], name)
    ensures r.None? ==> forall j :: 0 <= j < |h| ==> !NameMatches(h[j], name)
  {
    if |h| == 0 then None
    else if NameMatches(h[0], name) then Some(0)
    else match FirstMatch(h[1..], name)
      case None => None
      case Some(i) => Some(i + 1)
  }

  /** The RuntimeError CPython raises when an OrderedDict grows while its keys are iterated. */
  datatype ModifyError = MutatedDuringIteration

  /**
   * What `modify_headers` leaves behind. Every key matching `name` ignoring
   * case triggers `headers[name] = [value]`. When the exact key exists this
   * only replaces its list. Otherwise the first match inserts a new key at the
   * end, and the key iterator fails on its next step, unless that match was
   * the last key. Without any match the key is appended.
   */
  function Modified(h: Headers, name: string, value: string): Result<Headers, ModifyError>
  {
    if name in Names(h) then Ok(SetField(h, name, value))
    else match FirstMatch(h, name)
      case None => Ok(SetField(h, name, value))
      case Some(i) => if i + 1 == |h| then Ok(SetField(h, name, value)) else Err(MutatedDuringIteration)
  }

  /** `modify_headers`, iterating the keys while it assigns. */
  method ModifyHeaders(h: Headers, name: string, value: string) returns (r: Result<Headers, ModifyError>)
    ensures r == Modified(h, name, value)
  {
    var isFound := false;
    var current := h;
    var i := 0;
    while i < |h|
      invariant 0 <= i <= |h|
      invariant isFound == (exists j :: 0 <= j < i && NameMatches(h[j], name))
      invariant !isFound ==> current == h
      invariant isFound ==> current == SetField(h, name, value)
      invariant isFound && name !in Names(h) ==> FirstMatch(h, name) == Some(i - 1)
    {
      SetFieldLength(h, name, value);
      if |current| != |h| {
        // the key iterator notices that the dict has grown
        return Err(MutatedDuringIteration);
      }
      // while the size is unchanged the keys are those of `h`, in order
      if NameMatches(h[i], name) {
        if !isFound && name !in Names(h) {
          FirstMatchAt(h, name, i);
        }
        SetFieldTwice(h, name, value);
        current := SetField(current, name, value);
        isFound := true;
      }
      i := i + 1;
    }
    if !isFound {
      NoMatchNoName(h, name);
      current := SetField(current, name, value);
    }
    return Ok(current);
  }

  lemma {:induction false} SetFieldLength(h: Headers, name: string, value: string)
    ensures |SetField(h, name, value)| == if name in Names(h) then |h| else |h| + 1
  {
    if |h| > 0 && h[0].name != name {
      SetFieldLength(h[1..], name, value);
      assert Names(h) == [h[0].name] + Names(h[1..]);
    } else if |h| > 0 {
      assert Names(h)[0] == name;
    }
  }

  /** Setting the same key twice is setting it once. */
  lemma {:induction false} SetFieldTwice(h: Headers, name: string, value: string)
    ensures SetField(SetField(h, name, value), name, value) == SetField(h, name, value)
  {
    if |h| > 0 && h[0].name != name {
      SetFieldTwice(h[1..], name, value);
    }
  }

  lemma FirstMatchAt(h: Headers, name: string, i: nat)
    requires i < |h| && NameMatches(h[i], name)
    requires forall j :: 0 <= j < i ==> !NameMatches(h[j], name)
    ensures FirstMatch(h, name) == Some(i)
  {
  }

  lemma NoMatchNoName(h: Headers, name: string)
    requires forall j :: 0 <= j < |h| ==> !NameMatches(h[j], name)
    ensures name !in Names(h) && FirstMatch(h, name) == None
  {
  }

  lemma {:induction false} SetFieldValues(h: Headers, name: string, value: string, key: string)
    ensures ValuesOf(SetField(h, name, value), key) == if key == name then [value] else ValuesOf(h, key)
  {
    if |h| > 0 && h[0].name != name {
      SetFieldValues(h[1..], name, value, key);
      assert ([h[0]] + SetField(h[1..], name, value))[1..] == SetField(h[1..], name, value);
    }
  }

  lemma {:induction false} SetFieldNames(h: Headers, name: string, value: string)
    ensures Names(SetField(h, name, value)) == if name in Names(h) then Names(h) else Names(h) + [name]
  {
    if |h| > 0 && h[0].name != name {
      SetFieldNames(h[1..], name, value);
      assert Names(h) == [h[0].name] + Names(h[1..]);
      assert Names([h[0]] + SetField(h[1..], name, value)) == [h[0].name] + Names(SetField(h[1..], name, value));
    } else if |h| > 0 {
      assert Names(h)[0] == name;
    }
  }

  lemma {:induction false} SetFieldWellFormed(h: Headers, name: string, value: string)
    requires WellFormed(h)
    ensures WellFormed(SetField(h, name, value))
  {
    var r := SetField(h, name, value);
    SetFieldNames(h, name, value);
    if |h| > 0 && h[0].name != name {
      SetFieldWellFormed(h[1..], name, value);
    }
    assert forall i :: 0 <= i < |r| ==> Names(r)[i] == r[i].name;
  }

  /** Every field after the assignment is an old one or the assigned one. */
  lemma {:induction false} SetFieldFields(h: Headers, name: string, value: string, f: Field)
    ensures f in SetField(h, name, value) ==> f in h || f == Field(name, [value])
  {
    if |h| > 0 && h[0].name != name {
      SetFieldFields(h[1..], name, value, f);
      assert h == [h[0]] + h[1..];
    } else if |h| > 0 {
      assert h == [h[0]] + h[1..];
    }
  }

  /** In a dict, the values stored under the name of field i are those of field i. */
  lemma {:induction false} ValuesOfAt(h: Headers, i: nat)
    requires UniqueNames(h) && i < |h|
    ensures ValuesOf(h, h[i].name) == h[i].values
  {
    if i > 0 {
      ValuesOfAt(h[1..], i - 1);
    }
  }

  /**
   * After a successful modify_headers the key `name` holds exactly `[value]`,
   * every other key holds what it held, keys keep their order and `name` is
   * appended only when it was absent; a dict stays a dict.
   */
  lemma ModifiedSets(h: Headers, name: string, value: string)
    requires Modified(h, name, value).Ok?
    ensures var r := Modified(h, name, value).value;
            && ValuesOf(r, name) == [value]
            && (forall key :: key != name ==> ValuesOf(r, key) == ValuesOf(h, key))
            && Names(r) == (if name in Names(h) then Names(h) else Names(h) + [name])
            && (WellFormed(h) ==> WellFormed(r))
  {
    SetFieldValues(h, name, value, name);
    forall key | key != name ensures ValuesOf(SetField(h, name, value), key) == ValuesOf(h, key) {
      SetFieldValues(h, name, value, key);
    }
    SetFieldNames(h, name, value);
    if WellFormed(h) {
      SetFieldWellFormed(h, name, value);
    }
  }

  /**
   * modify_headers fails exactly when `name` is not a key but some key other
   * than the last one matches it ignoring case.
   */
  lemma ModifiedFails(h: Headers, name: string, value: string)
    ensures Modified(h, name, value).Err? <==>
              name !in Names(h) && exists i :: 0 <= i < |h| - 1 && NameMatches(h[i], name)
  {
    if name !in Names(h) && FirstMatch(h, name).Some? {
      assert NameMatches(h[FirstMatch(h, name).value], name);
    }
  }

  /** A dict in which every key matching `name` ignoring case is spelled exactly `name`. */
  predicate OnlySpelling(h: Headers, name: string)
  {
    forall i :: 0 <= i < |h| && NameMatches(h[i], name) ==> h[i].name == name
  }

  lemma SetFieldSpelling(h: Headers, name: string, value: string)
    requires OnlySpelling(h, name)
    ensures OnlySpelling(SetField(h, name, value), name)
  {
    var r := SetField(h, name, value);
    SetFieldNames(h, name, value);
    forall i | 0 <= i < |r| && NameMatches(r[i], name) ensures r[i].name == name {
      assert r[i].name == Names(r)[i];
      if i < |h| {
        assert Names(r)[i] == Names(h)[i] == h[i].name;
      }
    }
  }

  /** header_value of a dict where `name` has one spelling returns the first value stored under it. */
  lemma HeaderValueOnlySpelling(h: Headers, name: string)
    requires WellFormed(h) && OnlySpelling(h, name) && name in Names(h)
    ensures |ValuesOf(h, name)| > 0 && HeaderValue(h, name) == Some(ValuesOf(h, name)[0])
  {
    var k :| 0 <= k < |h| && Names(h)[k] == name;
    ValuesOfAt(h, k);
    assert Offers(h, k, name);
    var found := HeaderValue(h, name);
    var m :| Offers(h, m, name) && found.value == h[m].values[0];
    ValuesOfAt(h, m);
  }

  /**
   * When every key that matches `name` ignoring case is spelled exactly
   * `name`, header_value finds the value modify_headers stored.
   */
  lemma HeaderValueAfterModify(h: Headers, name: string, value: string)
    requires WellFormed(h) && OnlySpelling(h, name)
    requires Modified(h, name, value).Ok?
    ensures HeaderValue(Modified(h, name, value).value, name) == Some(value)
  {
    ModifiedSets(h, name, value);
    SetFieldSpelling(h, name, value);
    var r := Modified(h, name, value).value;
    assert name in Names(r);
    HeaderValueOnlySpelling(r, name);
  }

  /**
   * A Content-Length spelt in lower case, as the last key: modify_headers
   * appends a second key spelt `Content-Length` and keeps the old one, and
   * header_value then still finds the old length first.
   */
  lemma ModifiedKeepsStaleLength()
    ensures var h := [Field("content-length", ["5"])];
            && Modified(h, "Content-Length", "9") == Ok([Field("content-length", ["5"]), Field("Content-Length", ["9"])])
            && HeaderValue(Modified(h, "Content-Length", "9").value, "Content-Length") == Some("5")
  {
    var h := [Field("content-length", ["5"])];
    assert Lower("content-length") == Lower("Content-Length") == "content-length";
    assert "Content-Length" !in Names(h);
    assert FirstMatch(h, "Content-Length") == Some(0);
    var r := [Field("content-length", ["5"]), Field("Content-Length", ["9"])];
    assert SetField(h, "Content-Length", "9") == r;
    assert Offers(r, 0, "Content-Length");
  }

  /** `headers[key] = [value]` for every key matching `name` ignoring case, whatever its spelling. */
  function ReplaceMatches(h: Headers, name: string, value: string): (r: Headers)
    ensures |r| == |h|
    ensures forall i :: 0 <= i < |h| ==>
              r[i] == if NameMatches(h[i], name) then Field(h[i].name, [value]) else h[i]
  {
    if |h| == 0 then []
    else [if NameMatches(h[0], name) then Field(h[0].name, [value]) else h[0]] + ReplaceMatches(h[1..], name, value)
  }

  /**
   * modify_headers as its comment describes it: every key matching `name`
   * ignoring case gets the new value, and the name is appended only when no
   * key matches. Nothing is inserted while the keys are iterated.
   */
  function ModifiedCorrected(h: Headers, name: string, value: string): Headers
  {
    if FirstMatch(h, name).None? then h + [Field(name, [value])] else ReplaceMatches(h, name, value)
  }

  /**
   * With the correction, header_value reads back the new value for any
   * headers, and no key that matches the name keeps an old value.
   */
  lemma HeaderValueAfterCorrected(h: Headers, name: string, value: string)
    ensures HeaderValue(ModifiedCorrected(h, name, value), name) == Some(value)
    ensures forall i :: 0 <= i < |ModifiedCorrected(h, name, value)| && NameMatches(ModifiedCorrected(h, name, value)[i], name) ==>
              ModifiedCorrected(h, name, value)[i].values == [value]
  {
    var r := ModifiedCorrected(h, name, value);
    match FirstMatch(h, name)
    case None =>
      assert r == h + [Field(name, [value])];
      forall j | 0 <= j < |h| ensures !Offers(r, j, name) {
        assert r[j] == h[j];
      }
      FirstOffer(r, name, |h|);
    case Some(k) =>
      forall j | 0 <= j < k ensures !Offers(r, j, name) {
        assert r[j] == h[j];
      }
      FirstOffer(r, name, k);
  }

  /** header_value returns the first value of the first key that offers one. */
  lemma FirstOffer(h: Headers, name: string, k: nat)
    requires Offers(h, k, name) && forall j :: 0 <= j < k ==> !Offers(h, j, name)
    ensures HeaderValue(h, name) == Some(h[k].values[0])
  {
    var found := HeaderValue(h, name);
    var m :| Offers(h, m, name) && found.value == h[m].values[0]
             && forall j :: 0 <= j < m ==> !Offers(h, j, name);
    assert m == k;
  }

  /** With the correction, the keys keep their names and order, and a key that does not match is untouched. */
  lemma ModifiedCorrectedKeys(h: Headers, name: string, value: string)
    ensures var r := ModifiedCorrected(h, name, value);
            && Names(r) == (if FirstMatch(h, name).None? then Names(h) + [name] else Names(h))
            && forall i :: 0 <= i < |h| && !NameMatches(h[i], name) ==> r[i] == h[i]
  {
    var r := ModifiedCorrected(h, name, value);
    if FirstMatch(h, name).None? {
      assert Names(r) == Names(h) + [name];
    } else {
      assert Names(r) == Names(h);
    }
  }

  /** Where the name has one spelling in well-formed headers, the correction changes nothing the code does. */
  lemma {:induction false} CorrectedAgrees(h: Headers, name: string, value: string)
    requires UniqueNames(h) && OnlySpelling(h, name)
    ensures Modified(h, name, value) == Ok(ModifiedCorrected(h, name, value))
  {
    if FirstMatch(h, name).Some? {
      var k := FirstMatch(h, name).value;
      assert h[k].name == name && Names(h)[k] == name;
      SetFieldReplaces(h, name, value);
    } else {
      NoMatchNoName(h, name);
      SetFieldAppends(h, name, value);
    }
  }

  lemma {:induction false} SetFieldReplaces(h: Headers, name: string, value: string)
    requires UniqueNames(h) && OnlySpelling(h, name) && name in Names(h)
    ensures SetField(h, name, value) == ReplaceMatches(h, name, value)
  {
    if h[0].name == name {
      forall i | 0 <= i < |h| - 1 ensures !NameMatches(h[1..][i], name) {
        assert h[i + 1].name != h[0].name;
      }
      NoMatchUnchanged(h[1..], name, value);
      assert ReplaceMatches(h, name, value) == [Field(name, [value])] + ReplaceMatches(h[1..], name, value);
    } else {
      assert !NameMatches(h[0], name);
      assert name in Names(h[1..]) by {
        var k :| 0 <= k < |h| && Names(h)[k] == name;
        assert Names(h[1..])[k - 1] == name;
      }
      SetFieldReplaces(h[1..], name, value);
      assert ReplaceMatches(h, name, value) == [h[0]] + ReplaceMatches(h[1..], name, value);
    }
  }

  lemma NoMatchUnchanged(h: Headers, name: string, value: string)
    requires forall i :: 0 <= i < |h| ==> !NameMatches(h[i], name)
    ensures ReplaceMatches(h, name, value) == h
  {
  }

  lemma {:induction false} SetFieldAppends(h: Headers, name: string, value: string)
    requires name !in Names(h)
    ensures SetField(h, name, value) == h + [Field(name, [value])]
  {
    if |h| > 0 {
      assert h[0].name == Names(h)[0];
      assert name !in Names(h[1..]) by {
        forall k | 0 <= k < |h| - 1 ensures Names(h[1..])[k] != name {
          assert Names(h[1..])[k] == Names(h)[k + 1];
        }
      }
      SetFieldAppends(h[1..], name, value);
      assert [h[0]] + (h[1..] + [Field(name, [value])]) == h + [Field(name, [value])];
    }
  }

  // ---------------------------------------------------------------------------
  // Serialisation
  // ---------------------------------------------------------------------------

  /** The line `key: value` written for one value. */
  function FieldLine(name: string, value: string): string
  {
    name + ": " + value
  }

  /** The lines written for one key, one per value, in order. */
  function FieldLines(name: string, values: seq<string>): (lines: seq<string>)
    ensures |lines| == |values|
  {
    if |values| == 0 then []
    else FieldLines(name, values[..|values| - 1]) + [FieldLine(name, values[|values| - 1])]
  }

  /** The lines written for all keys, in insertion order. */
  function Lines(h: Headers): seq<string>
  {
    if |h| == 0 then []
    else Lines(h[..|h| - 1]) + FieldLines(h[|h| - 1].name, h[|h| - 1].values)
  }

  /** Every line followed by CR LF. */
  function Terminated(lines: seq<string>): string
  {
    if |lines| == 0 then ""
    else Terminated(lines[..|lines| - 1]) + lines[|lines| - 1] + CRLF
  }

  /** What build_header_bytes produces: start line, field lines, each ended by CR LF, then CR LF. */
  function HeaderBlock(info: StartLine, h: Headers): string
  {
    StartLineText(info) + CRLF + Terminated(Lines(h)) + CRLF
  }

  /** `build_header_bytes`, accumulating the bytes in two nested loops. */
  method BuildHeaderBytes(info: StartLine, h: Headers) returns (data: string)
    ensures data == HeaderBlock(info, h)
  {
    data := StartLineText(info) + CRLF;
    ghost var head := data;
    for i := 0 to |h|
      invariant data == head + Terminated(Lines(h[..i]))
    {
      var key, values := h[i].name, h[i].values;
      LinesStep(h, i);
      assert Lines(h[..i]) + FieldLines(key, values[..0]) == Lines(h[..i]);
      for j := 0 to |values|
        invariant data == head + Terminated(Lines(h[..i]) + FieldLines(key, values[..j]))
      {
        TerminatedFieldStep(Lines(h[..i]), key, values, j);
        Regroup(data, key, ": ", values[j]);
        Regroup(head, Terminated(Lines(h[..i]) + FieldLines(key, values[..j])), FieldLine(key, values[j]), CRLF);
        data := data + key + ": " + values[j] + CRLF;
      }
      assert values[..|values|] == values;
    }
    assert h[..|h|] == h;
    data := data + CRLF;
  }

  /** The lines of one more field follow those of the fields before it. */
  lemma LinesStep(h: Headers, i: nat)
    requires i < |h|
    ensures Lines(h[..i + 1]) == Lines(h[..i]) + FieldLines(h[i].name, h[i].values)
  {
    assert h[..i + 1][..i] == h[..i];
  }

  /** One more value of a field adds its line, ended by CR LF. */
  lemma TerminatedFieldStep(pre: seq<string>, key: string, values: seq<string>, j: nat)
    requires j < |values|
    ensures Terminated(pre + FieldLines(key, values[..j + 1]))
              == Terminated(pre + FieldLines(key, values[..j])) + FieldLine(key, values[j]) + CRLF
  {
    assert values[..j + 1][..j] == values[..j];
    var before := pre + FieldLines(key, values[..j]);
    assert pre + FieldLines(key, values[..j + 1]) == before + [FieldLine(key, values[j])];
    assert (before + [FieldLine(key, values[j])])[..|before|] == before;
  }

  /** The text of a block without its final blank line: the lines joined by CR LF. */
  function BlockText(info: StartLine, h: Headers): string
  {
    Join([StartLineText(info)] + Lines(h), CRLF)
  }

  lemma {:induction false} TerminatedJoin(first: string, lines: seq<string>)
    ensures first + CRLF + Terminated(lines) == Join([first] + lines, CRLF) + CRLF
  {
    if |lines| > 0 {
      var init := lines[..|lines| - 1];
      var last := lines[|lines| - 1];
      TerminatedJoin(first, init);
      assert [first] + lines == ([first] + init) + [last];
      JoinAppend([first] + init, [last], CRLF);
    }
  }

  /** A built block is its text followed by the CR LF CR LF that read_headers looks for. */
  lemma HeaderBlockText(info: StartLine, h: Headers)
    ensures HeaderBlock(info, h) == BlockText(info, h) + HttpStream.HeaderEnd
  {
    TerminatedJoin(StartLineText(info), Lines(h));
  }

  // The round trip

  /** Neither CR nor LF. */
  predicate NoBreak(s: string)
  {
    '\r' !in s && '\n' !in s
  }

  /** A key and its values survive being written and parsed again. */
  predicate Writable(f: Field)
  {
    && ':' !in f.name && NoBreak(f.name) && IsStripped(f.name)
    && forall j :: 0 <= j < |f.values| ==> NoBreak(f.values[j]) && IsStripped(f.values[j])
  }

  /** A start line and dict that build_header_bytes writes in a form parse_headers reads back. */
  predicate Serialisable(info: StartLine, h: Headers)
  {
    && ' ' !in info.requestMethod && ' ' !in info.version
    && ':' !in StartLineText(info) && NoBreak(StartLineText(info))
    && WellFormed(h)
    && forall i :: 0 <= i < |h| ==> Writable(h[i])
  }

  /** No line break opens an empty line, and the text ends inside a line. */
  predicate NoBlankLine(t: string)
  {
    && |t| > 0 && t[|t| - 1] != '\r' && t[|t| - 1] != '\n'
    && forall k :: 0 <= k < |t| - 1 && t[k] == '\n' ==> t[k + 1] != '\r'
  }

  lemma {:induction false} JoinNoBlankLine(lines: seq<string>)
    requires |lines| > 0
    requires forall k :: 0 <= k < |lines| ==> |lines[k]| > 0 && NoBreak(lines[k])
    ensures NoBlankLine(Join(lines, CRLF))
  {
    if |lines| > 1 {
      var x := lines[0];
      var rest := Join(lines[1..], CRLF);
      JoinNoBlankLine(lines[1..]);
      var t := x + CRLF + rest;
      assert Join(lines, CRLF) == t;
      assert rest[0] == lines[1][0] by {
        if |lines[1..]| > 1 {
          assert rest == lines[1] + CRLF + Join(lines[2..], CRLF);
        }
      }
      assert lines[1][0] != '\r' by {
        assert lines[1][0] in lines[1];
      }
      forall k | 0 <= k < |t| - 1 && t[k] == '\n' ensures t[k + 1] != '\r' {
        if k > |x| + 1 {
          assert t[k] == rest[k - |x| - 2];
          assert t[k + 1] == rest[k - |x| - 1];
        }
      }
    } else {
      assert Join(lines, CRLF) == lines[0];
      var x := lines[0];
      assert x[|x| - 1] in x;
      forall k | 0 <= k < |x| - 1 ensures x[k] != '\n' {
        assert x[k] in x;
      }
    }
  }

  /** In a text without blank lines, the first CR LF CR LF is the one appended to it. */
  lemma NoBlankLineFind(t: string)
    requires NoBlankLine(t)
    ensures Find(t + HttpStream.HeaderEnd, HttpStream.HeaderEnd) == Some(|t|)
  {
    var end := HttpStream.HeaderEnd;
    var u := t + end;
    assert u[|t|..|t| + |end|] == end;
    forall j: nat | j < |t| ensures !OccursAt(u, end, j) {
      var w := u[j..j + 4];
      if j + 1 == |t| {
        assert w[0] != end[0];
      } else if j + 2 == |t| || u[j + 1] != '\n' {
        assert w[1] != end[1];
      } else {
        assert w[2] != end[2];
      }
    }
    FindFirst(u, end, |t|);
  }

  lemma {:induction false} FieldLinesAt(name: string, values: seq<string>)
    ensures forall k :: 0 <= k < |values| ==> FieldLines(name, values)[k] == FieldLine(name, values[k])
  {
    if |values| > 0 {
      FieldLinesAt(name, values[..|values| - 1]);
    }
  }

  /** Every written field line is a non-empty line without line breaks. */
  lemma {:induction false} LinesClean(h: Headers)
    requires forall i :: 0 <= i < |h| ==> Writable(h[i])
    ensures forall k :: 0 <= k < |Lines(h)| ==> |Lines(h)[k]| > 0 && NoBreak(Lines(h)[k])
  {
    if |h| > 0 {
      var f := h[|h| - 1];
      LinesClean(h[..|h| - 1]);
      FieldLinesAt(f.name, f.values);
      forall k | 0 <= k < |f.values| ensures NoBreak(FieldLine(f.name, f.values[k])) {
        assert NoBreak(f.values[k]);
      }
    }
  }

  /** A written field line parses back to its key and value. */
  lemma LineEntryFieldLine(name: string, value: string)
    requires ':' !in name && IsStripped(name) && IsStripped(value)
    ensures LineEntry(FieldLine(name, value)) == Some((name, value))
  {
    var line := FieldLine(name, value);
    assert line == name + ":" + (" " + value);
    FindAfterFree(name, ":", " " + value);
    assert line[..|name|] == name;
    assert line[|name| + 1..] == " " + value;
    StripStripped("", name);
    assert "" + name == name;
    StripStripped(" ", value);
  }

  lemma {:induction false} AddValueNew(h: Headers, key: string, value: string)
    requires key !in Names(h)
    ensures AddValue(h, key, value) == h + [Field(key, [value])]
  {
    if |h| > 0 {
      assert Names(h)[0] == h[0].name;
      assert key !in Names(h[1..]) by {
        assert forall i :: 0 <= i < |h| - 1 ==> Names(h[1..])[i] == Names(h)[i + 1];
      }
      AddValueNew(h[1..], key, value);
      assert h == [h[0]] + h[1..];
    }
  }

  lemma AddValueLast(h: Headers, key: string, values: seq<string>, value: string)
    requires key !in Names(h) && |values| > 0
    ensures AddValue(h + [Field(key, values)], key, value) == h + [Field(key, values + [value])]
    decreases |h|
  {
    if |h| > 0 {
      assert Names(h)[0] == h[0].name;
      assert key !in Names(h[1..]) by {
        assert forall i :: 0 <= i < |h| - 1 ==> Names(h[1..])[i] == Names(h)[i + 1];
      }
      AddValueLast(h[1..], key, values, value);
      assert (h + [Field(key, values)])[1..] == h[1..] + [Field(key, values)];
      assert h == [h[0]] + h[1..];
    }
  }

  /** One more written line for the key just added appends its value. */
  lemma AddFieldLine(h: Headers, name: string, vs: seq<string>, value: string)
    requires name !in Names(h) && ':' !in name && IsStripped(name) && IsStripped(value)
    requires |vs| > 0 && AddLines(h, FieldLines(name, vs)) == h + [Field(name, vs)]
    ensures AddLines(h, FieldLines(name, vs + [value])) == h + [Field(name, vs + [value])]
  {
    var lines := FieldLines(name, vs + [value]);
    assert (vs + [value])[..|vs|] == vs;
    assert lines[..|lines| - 1] == FieldLines(name, vs);
    LineEntryFieldLine(name, value);
    AddValueLast(h, name, vs, value);
  }

  /** The line written for a single-valued field adds that field. */
  lemma AddFieldLineSingle(h: Headers, name: string, v: string)
    requires name !in Names(h) && ':' !in name && IsStripped(name) && IsStripped(v)
    ensures AddLines(h, FieldLines(name, [v])) == h + [Field(name, [v])]
  {
    var line := FieldLine(name, v);
    assert FieldLines(name, [v]) == [line] by {
      assert [v][..0] == [];
    }
    assert [line][..0] == [];
    LineEntryFieldLine(name, v);
    assert AddLines(h, [line]) == AddValue(h, name, v);
    AddValueNew(h, name, v);
  }

  /** The lines written for a key that is new to `h` add that key with its values at the end. */
  lemma {:induction false} AddFieldLines(h: Headers, name: string, vs: seq<string>)
    requires name !in Names(h) && ':' !in name && IsStripped(name)
    requires |vs| > 0 && forall j :: 0 <= j < |vs| ==> IsStripped(vs[j])
    ensures AddLines(h, FieldLines(name, vs)) == h + [Field(name, vs)]
  {
    if |vs| == 1 {
      AddFieldLineSingle(h, name, vs[0]);
      assert [vs[0]] == vs;
    } else {
      var init := vs[..|vs| - 1];
      var last := vs[|vs| - 1];
      assert vs == init + [last];
      assert AddLines(h, FieldLines(name, init)) == h + [Field(name, init)] by {
        AddFieldLines(h, name, init);
      }
      AddFieldLine(h, name, init, last);
    }
  }

  /** Dropping the last field of a dict leaves a dict without that field's name. */
  lemma WellFormedInit(h: Headers)
    requires WellFormed(h) && |h| > 0
    ensures WellFormed(h[..|h| - 1]) && h[|h| - 1].name !in Names(h[..|h| - 1])
  {
    var init := h[..|h| - 1];
    forall i | 0 <= i < |init| ensures Names(init)[i] != h[|h| - 1].name {
      assert h[i].name != h[|h| - 1].name;
    }
  }

  /** Parsing the lines written for a dict of writable fields gives the dict back. */
  lemma {:induction false} ParseLines(h: Headers)
    requires WellFormed(h) && forall i :: 0 <= i < |h| ==> Writable(h[i])
    ensures AddLines([], Lines(h)) == h
  {
    if |h| > 0 {
      var init := h[..|h| - 1];
      var f := h[|h| - 1];
      WellFormedInit(h);
      ParseLines(init);
      assert Writable(f);
      AddLinesAppend([], Lines(init), FieldLines(f.name, f.values));
      AddFieldLines(init, f.name, f.values);
      assert init + [f] == h;
    }
  }

  /**
   * The round trip of the proxy's header handling: the block build_header_bytes
   * writes, followed by any body, is split by read_headers right after the
   * field lines, and parse_headers turns the text before the split back into
   * the same start line and the same dict.
   */
  lemma HeaderRoundTrip(info: StartLine, h: Headers, body: string)
    requires Serialisable(info, h)
    ensures HttpStream.HeaderSplit(HeaderBlock(info, h) + body, BlockText(info, h), body)
    ensures Split(BlockText(info, h), CRLF) == [StartLineText(info)] + Lines(h)
    ensures ParseFields(Split(BlockText(info, h), CRLF)) == h
    ensures ExtractStartLine(Split(BlockText(info, h), CRLF)[0]) == Some(info)
  {
    var start := StartLineText(info);
    var lines := [start] + Lines(h);
    var t := BlockText(info, h);
    LinesClean(h);
    assert forall k :: 0 <= k < |lines| ==> |lines[k]| > 0 && NoBreak(lines[k]) by {
      assert start[|start| - 1] in start;
      forall k | 1 <= k < |lines| ensures lines[k] == Lines(h)[k - 1] { }
    }
    // the first CR LF CR LF is the one after the text
    HeaderBlockText(info, h);
    JoinNoBlankLine(lines);
    NoBlankLineFind(t);
    FindInPrefix(t + HttpStream.HeaderEnd, body, HttpStream.HeaderEnd);
    // the lines come back
    SplitJoin(lines, CRLF);
    // the fields come back; the start line has no colon
    FindChar(start, ':');
    assert AddLines([], [start]) == [];
    AddLinesAppend([], [start], Lines(h));
    ParseLines(h);
    ExtractStartLineText(info);
  }

  /**
   * Any line `key:value` whose key holds no colon, including a request line
   * whose path holds one, is folded into the headers as the field `key`.
   */
  lemma FoldedLine(key: string, value: string)
    requires ':' !in key && IsStripped(key) && IsStripped(value)
    ensures ParseFields([key + ":" + value]) == [Field(key, [value])]
  {
    var line := key + ":" + value;
    FindAfterFree(key, ":", value);
    assert line[..|key|] == key && line[|key| + 1..] == value;
    StripStripped("", key);
    assert "" + key == key;
    StripStripped("", value);
    assert "" + value == value;
    assert LineEntry(line) == Some((key, value));
    assert [line][..0] == [];
    assert AddLines([], [line]) == AddLine(AddLines([], []), line) == AddValue([], key, value);
  }

  /**
   * `GET /s?t=12:00 HTTP/1.1`, a request line with an unencoded colon in its
   * query, becomes the field `GET /s?t=12` with the value `00 HTTP/1.1`,
   * which serve_page forwards as the header line `GET /s?t=12: 00 HTTP/1.1`.
   */
  lemma StartLineFolded()
    ensures ParseFields(["GET /s?t=12" + ":" + "00 HTTP/1.1"]) == [Field("GET /s?t=12", ["00 HTTP/1.1"])]
  {
    var key, value := "GET /s?t=12", "00 HTTP/1.1";
    assert IsStripped(key) && IsStripped(value);
    assert ':' !in key;
    FoldedLine(key, value);
  }

  /** parse_headers with the start line kept out of the fields. */
  function ParseFieldsCorrected(lines: seq<string>): Headers
  {
    if |lines| == 0 then [] else ParseFields(lines[1..])
  }

  /**
   * With the start line kept out of the fields, a built header block parses
   * back to its headers whatever the path holds, colons included.
   */
  lemma HeaderRoundTripCorrected(info: StartLine, h: Headers)
    requires NoBreak(StartLineText(info)) && WellFormed(h) && forall i :: 0 <= i < |h| ==> Writable(h[i])
    ensures ParseFieldsCorrected(Split(BlockText(info, h), CRLF)) == h
  {
    var start := StartLineText(info);
    var lines := [start] + Lines(h);
    LinesClean(h);
    forall k | 0 <= k < |lines| ensures CRLF[0] !in lines[k] {
      if k > 0 {
        assert lines[k] == Lines(h)[k - 1];
      }
    }
    SplitJoin(lines, CRLF);
    assert lines[1..] == Lines(h);
    ParseLines(h);
  }

  /**
   * A successful modify_headers with a writable key and value keeps a
   * response serialisable.
   */
  lemma ModifiedSerialisable(info: StartLine, h: Headers, name: string, value: string)
    requires Serialisable(info, h) && Writable(Field(name, [value]))
    requires Modified(h, name, value).Ok?
    ensures Serialisable(info, Modified(h, name, value).value)
  {
    var r := Modified(h, name, value).value;
    ModifiedSets(h, name, value);
    forall i | 0 <= i < |r| ensures Writable(r[i]) {
      SetFieldFields(h, name, value, r[i]);
      if r[i] in h {
        var j :| 0 <= j < |h| && h[j] == r[i];
      }
    }
  }
}
