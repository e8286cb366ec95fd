/** The free text helpers: splitting a CSV line into fields, which the
    loaders use, and trimming whitespace, upper-casing and checking airport
    codes, which the menu uses on what the user types. Characters are taken
    in the C locale. */
module TextUtils {

  // ---------------------------------------------------------------------
  // parseCSVLine

  /** The state of parseCSVLine's scan: the fields completed so far, the
      field being built, and whether the scan is inside quotes. */
  datatype Scan = Scan(fields: seq<string>, field: string, inQuotes: bool)

  /** One character of the scan: a quote toggles quoting and is dropped; an
      unquoted comma ends the field; CR and LF are dropped; anything else,
      a quoted comma included, joins the field. */
  function ScanStep(st: Scan, c: char): Scan
  {
    if c == '"' then Scan(st.fields, st.field, !st.inQuotes)
    else if c == ',' && !st.inQuotes then Scan(st.fields + [st.field], "", false)
    else if c != '\r' && c != '\n' then Scan(st.fields, st.field + [c], st.inQuotes)
    else st
  }

  /** The scan after reading all of s, left to right. */
  function ScanOf(s: string): Scan
  {
    if s == [] then Scan([], "", false) else ScanStep(ScanOf(s[..|s| - 1]), s[|s| - 1])
  }

  /** The fields of a line: those the scan completed, then the last one. */
  function CsvFields(line: string): seq<string>
  {
    ScanOf(line).fields + [ScanOf(line).field]
  }

  method ParseCsvLine(line: string) returns (fields: seq<string>)
    ensures fields == CsvFields(line)
  {
    fields := [];
    var field: string := "";
    var inQuotes := false;
    var i := 0;
    while i < |line|
      invariant 0 <= i <= |line|
      invariant ScanOf(line[..i]) == Scan(fields, field, inQuotes)
    {
      var c := line[i];
      assert line[..i + 1][..i] == line[..i];
      if c == '"' {
        inQuotes := !inQuotes;
      } else if c == ',' && !inQuotes {
        fields := fields + [field];
        field := "";
      } else if c != '\r' && c != '\n' {
        field := field + [c];
      }
      i := i + 1;
    }
    assert line[..i] == line;
    fields := fields + [field];
  }

  /** A character the scan treats specially. */
  predicate Special(c: char)
  {
    c == '"' || c == ',' || c == '\r' || c == '\n'
  }

  predicate Plain(s: string)
  {
    forall i :: 0 <= i < |s| ==> !Special(s[i])
  }

  /** The line that writes fields one after another, separated by commas. */
  function JoinFields(fs: seq<string>): string
    requires fs != []
  {
    if |fs| == 1 then fs[0] else JoinFields(fs[..|fs| - 1]) + [','] + fs[|fs| - 1]
  }

  /** Plain text only extends the field being built. */
  lemma {:induction false} ScanPlain(s: string, t: string)
    requires Plain(t)
    ensures ScanOf(s + t) == Scan(ScanOf(s).fields, ScanOf(s).field + t, ScanOf(s).inQuotes)
    decreases |t|
  {
    if t == [] {
      assert s + t == s;
    } else {
      var t' := t[..|t| - 1];
      assert (s + t)[..|s + t| - 1] == s + t';
      ScanPlain(s, t');
      assert ScanOf(s).field + t' + [t[|t| - 1]] == ScanOf(s).field + t;
    }
  }

  lemma {:induction false} ScanJoin(fs: seq<string>)
    requires fs != [] && forall k :: 0 <= k < |fs| ==> Plain(fs[k])
    ensures ScanOf(JoinFields(fs)) == Scan(fs[..|fs| - 1], fs[|fs| - 1], false)
    decreases |fs|
  {
    if |fs| == 1 {
      ScanPlain([], fs[0]);
      assert [] + fs[0] == fs[0];
    } else {
      var init := fs[..|fs| - 1];
      assert forall k :: 0 <= k < |init| ==> init[k] == fs[k];
      ScanJoin(init);
      var prefix := JoinFields(init) + [','];
      assert prefix[..|prefix| - 1] == JoinFields(init);
      assert ScanOf(prefix) == Scan(init[..|init| - 1] + [init[|init| - 1]], "", false);
      assert init[..|init| - 1] + [init[|init| - 1]] == init;
      ScanPlain(prefix, fs[|fs| - 1]);
      assert "" + fs[|fs| - 1] == fs[|fs| - 1];
    }
  }

  /** parseCSVLine undoes writing plain fields with commas between them. */
  lemma ParseJoin(fs: seq<string>)
    requires fs != [] && forall k :: 0 <= k < |fs| ==> Plain(fs[k])
    ensures CsvFields(JoinFields(fs)) == fs
  {
    ScanJoin(fs);
    InitLast(fs);
  }

  lemma InitLast<T>(s: seq<T>)
    requires s != []
    ensures s[..|s| - 1] + [s[|s| - 1]] == s
  {
  }

  /** How many commas outside quotes a line has: its field count less one. */
  function UnquotedCommas(s: string): nat
  {
    if s == [] then 0
    else UnquotedCommas(s[..|s| - 1]) +
         (if s[|s| - 1] == ',' && !ScanOf(s[..|s| - 1]).inQuotes then 1 else 0)
  }

  lemma {:induction false} ScanCount(s: string)
    ensures |ScanOf(s).fields| == UnquotedCommas(s)
    decreases |s|
  {
    if s != [] {
      ScanCount(s[..|s| - 1]);
    }
  }

  /** A line has one field more than it has unquoted commas, and no field
      holds a quote, a CR or an LF. */
  lemma FieldsShape(line: string)
    ensures |CsvFields(line)| == UnquotedCommas(line) + 1
    ensures forall k, i :: 0 <= k < |CsvFields(line)| && 0 <= i < |CsvFields(line)[k]| ==>
              CsvFields(line)[k][i] != '"' && CsvFields(line)[k][i] != '\r' && CsvFields(line)[k][i] != '\n'
  {
    ScanCount(line);
    ScanClean(line);
  }

  predicate Clean(s: string)
  {
    forall i :: 0 <= i < |s| ==> s[i] != '"' && s[i] != '\r' && s[i] != '\n'
  }

  lemma {:induction false} ScanClean(s: string)
    ensures Clean(ScanOf(s).field) && forall k :: 0 <= k < |ScanOf(s).fields| ==> Clean(ScanOf(s).fields[k])
    decreases |s|
  {
    if s != [] {
      ScanClean(s[..|s| - 1]);
    }
  }

  // ---------------------------------------------------------------------
  // trim

  /** The characters trim strips. */
  predicate Blank(c: char)
  {
    c == ' ' || c == '\t' || c == '\n' || c == '\r'
  }

  predicate AllBlank(s: string)
  {
    forall i :: 0 <= i < |s| ==> Blank(s[i])
  }

  /** find_first_not_of(" \t\n\r"): the first non-blank index, or |s| when there is none. */
  function FirstNonBlank(s: string): (i: nat)
    ensures i <= |s| && AllBlank(s[..i]) && (i < |s| ==> !Blank(s[i]))
  {
    if s == [] || !Blank(s[0]) then 0
    else
      var i := 1 + FirstNonBlank(s[1..]);
      assert forall k :: 1 <= k < i ==> s[..i][k] == s[1..][..i - 1][k - 1];
      i
  }

  /** find_last_not_of(" \t\n\r") plus one: the end of the last non-blank
      character, or 0 when there is none. */
  function EndNonBlank(s: string): (j: nat)
    ensures j <= |s| && AllBlank(s[j..]) && (j > 0 ==> !Blank(s[j - 1]))
    ensures forall k :: 0 <= k < |s| && !Blank(s[k]) ==> k < j
  {
    if s == [] || !Blank(s[|s| - 1]) then |s|
    else
      var j := EndNonBlank(s[..|s| - 1]);
      assert s[j..] == s[..|s| - 1][j..] + [s[|s| - 1]];
      j
  }

  /** trim: s without its leading and trailing blanks; "" when s is all blank. */
  function Trim(s: string): (r: string)
    ensures AllBlank(s) <==> r == ""
    ensures exists i, j :: 0 <= i <= j <= |s| && r == s[i..j] && AllBlank(s[..i]) && AllBlank(s[j..])
    ensures r != "" ==> !Blank(r[0]) && !Blank(r[|r| - 1])
  {
    var first := FirstNonBlank(s);
    if first == |s| then
      assert s[..first] == s;
      assert s[0..0] == "" && s[..0] == "" && s[0..] == s;
      ""
    else
      var last := EndNonBlank(s);
      s[first..last]
  }

  /** Trimming twice trims no more than trimming once. */
  lemma TrimIdempotent(s: string)
    ensures Trim(Trim(s)) == Trim(s)
  {
    var r := Trim(s);
    if r != "" {
      var f := FirstNonBlank(r);
      assert f == 0;
      var e := EndNonBlank(r);
      assert e == |r|;
      assert r[0..|r|] == r;
    }
  }

  // ---------------------------------------------------------------------
  // toUpperCase and isValidAirportCode

  /** isalpha in the C locale. */
  predicate IsAlpha(c: char)
  {
    'A' <= c <= 'Z' || 'a' <= c <= 'z'
  }

  /** toupper in the C locale: lower-case ASCII letters move up, anything else stays. */
  function ToUpper(c: char): (u: char)
    ensures IsAlpha(c) <==> IsAlpha(u)
    ensures !('a' <= u <= 'z')
  {
    if 'a' <= c <= 'z' then (c as int - 'a' as int + 'A' as int) as char else c
  }

  /** toUpperCase: each character through toupper. */
  function ToUpperCase(s: string): (r: string)
    ensures |r| == |s| && forall i :: 0 <= i < |s| ==> r[i] == ToUpper(s[i])
  {
    if s == [] then [] else [ToUpper(s[0])] + ToUpperCase(s[1..])
  }

  /** What isValidAirportCode accepts: exactly three letters. */
  predicate ValidCode(code: string)
  {
    |code| == 3 && forall i :: 0 <= i < |code| ==> IsAlpha(code[i])
  }

  method IsValidAirportCode(code: string) returns (b: bool)
    ensures b <==> ValidCode(code)
  {
    if |code| != 3 {
      return false;
    }
    var i := 0;
    while i < |code|
      invariant 0 <= i <= |code|
      invariant forall k :: 0 <= k < i ==> IsAlpha(code[k])
    {
      if !IsAlpha(code[i]) {
        return false;
      }
      i := i + 1;
    }
    return true;
  }

  /** Upper-casing keeps a code valid or invalid, and a second pass changes nothing. */
  lemma UpperCaseCode(code: string)
    ensures ValidCode(ToUpperCase(code)) <==> ValidCode(code)
    ensures ToUpperCase(ToUpperCase(code)) == ToUpperCase(code)
  {
  }
}
