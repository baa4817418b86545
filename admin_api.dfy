/**
 * The admin side of the mobile client's API layer
 * (`mobile/PCASConnect/src/services/adminApi.js`): the list URLs built by
 * appending query parameters, the export and search URLs, and the two calls
 * that turn a failed request into a fallback value or a thrown message.
 *
 * To say what a built URL means, `ParseQuery` models how the server splits
 * a query string into name/value pairs. The server also percent-decodes
 * `%xx` and `+`; the round-trip lemmas are stated for text without those
 * characters (and without `#`, which would end the query), where decoding
 * changes nothing.
 */
module AdminApi {
  import opened Js
  import Text
  import Http
  import AdminViews

  const BaseUrl := "http://10.219.6.134:8000"

  // ---------------------------------------------------------------------
  // Splitting text at a separator
  // ---------------------------------------------------------------------

  /** The index of the first `c` in `s`. */
  function FirstIndex(s: string, c: char): (r: nat)
    requires c in s
    ensures r < |s| && s[r] == c
    ensures forall j :: 0 <= j < r ==> s[j] != c
  {
    if s[0] == c then 0
    else
      assert s == [s[0]] + s[1..];
      FirstIndex(s[1..], c) + 1
  }

  /** When `a` has no `c`, the first `c` of `a + [c] + b` is the one right after `a`. */
  lemma FirstIndexAfter(a: string, c: char, b: string)
    requires c !in a
    ensures c in a + [c] + b
    ensures FirstIndex(a + [c] + b, c) == |a|
  {
    var s := a + [c] + b;
    assert s[|a|] == c;
    var i := FirstIndex(s, c);
    assert forall j :: 0 <= j < |a| ==> s[j] == a[j];
  }

  /** `s.split(sep)`: the pieces between separators, in order (at least one, possibly empty). */
  function SplitOn(s: string, sep: char): (r: seq<string>)
    ensures |r| >= 1
    decreases |s|
  {
    if sep in s then
      var i := FirstIndex(s, sep);
      [s[..i]] + SplitOn(s[i + 1..], sep)
    else [s]
  }

  lemma SplitOnJoin(a: string, sep: char, b: string)
    requires sep !in a
    ensures SplitOn(a + [sep] + b, sep) == [a] + SplitOn(b, sep)
  {
    var s := a + [sep] + b;
    FirstIndexAfter(a, sep, b);
    assert s[..|a|] == a;
    assert s[|a| + 1..] == b;
  }

  // ---------------------------------------------------------------------
  // Query strings
  // ---------------------------------------------------------------------

  /** Text that reaches the server unchanged inside a query value. */
  predicate QuerySafe(s: string) {
    '&' !in s && '#' !in s && '%' !in s && '+' !in s
  }

  /** A parameter name: query-safe and free of `=`. */
  predicate QueryName(s: string) {
    QuerySafe(s) && '=' !in s
  }

  /** One `name=value` piece, split at its first `=`; a piece without `=` has an empty value. */
  function SplitPair(piece: string): (string, string) {
    if '=' in piece then
      var i := FirstIndex(piece, '=');
      (piece[..i], piece[i + 1..])
    else (piece, "")
  }

  /** The non-empty pieces, each split into a pair. */
  function Pairs(pieces: seq<string>): seq<(string, string)> {
    if pieces == [] then []
    else (if pieces[0] == "" then [] else [SplitPair(pieces[0])]) + Pairs(pieces[1..])
  }

  /** How the server reads a query string: pieces between `&`, empty ones dropped. */
  function ParseQuery(q: string): seq<(string, string)> {
    Pairs(SplitOn(q, '&'))
  }

  /** `if (v) url += `name=${v}&``: the piece a list URL gains for one parameter. */
  function Param(name: string, v: JsVal): string {
    if Truthy(v) then name + "=" + Render(v) + "&" else ""
  }

  /** The query the list builders produce for `params`, in order. */
  function BuildQuery(params: seq<(string, JsVal)>): string {
    if params == [] then "" else Param(params[0].0, params[0].1) + BuildQuery(params[1..])
  }

  /** The parameters the caller meant to send: the truthy ones, rendered, in order. */
  function Sent(params: seq<(string, JsVal)>): seq<(string, string)> {
    if params == [] then [] else SentOne(params[0]) + Sent(params[1..])
  }

  /** One parameter as the caller meant it: nothing when falsy, otherwise its name and rendered value. */
  function SentOne(p: (string, JsVal)): seq<(string, string)> {
    if Truthy(p.1) then [(p.0, Render(p.1))] else []
  }

  /** A piece `name=value` with a plain name splits back into the name and the value. */
  lemma SplitPairOf(name: string, value: string)
    requires '=' !in name
    ensures SplitPair(name + "=" + value) == (name, value)
  {
    assert name + "=" + value == name + ['='] + value;
    FirstIndexAfter(name, '=', value);
    var piece := name + ['='] + value;
    assert piece[..|name|] == name;
    assert piece[|name| + 1..] == value;
  }

  lemma ParseQueryEmpty()
    ensures ParseQuery("") == []
  {
    assert SplitOn("", '&') == [""];
    assert Pairs([""]) == [] + Pairs([]);
  }

  /** A non-empty piece followed by `&` parses as its pair, then the rest. */
  lemma ParseQueryPiece(piece: string, rest: string)
    requires '&' !in piece && piece != ""
    ensures ParseQuery(piece + ['&'] + rest) == [SplitPair(piece)] + ParseQuery(rest)
  {
    SplitOnJoin(piece, '&', rest);
    var pieces := [piece] + SplitOn(rest, '&');
    assert pieces[0] == piece;
    assert pieces[1..] == SplitOn(rest, '&');
  }

  /** When names and values are query-safe, the server reads back exactly the parameters that were sent. */
  lemma {:induction false} QueryRoundTrip(params: seq<(string, JsVal)>)
    requires forall i :: 0 <= i < |params| ==> QueryName(params[i].0) && QuerySafe(Render(params[i].1))
    ensures ParseQuery(BuildQuery(params)) == Sent(params)
  {
    if params == [] {
      ParseQueryEmpty();
    } else {
      var name, v := params[0].0, params[0].1;
      var rest := params[1..];
      assert QueryName(name) && QuerySafe(Render(v));
      QueryRoundTrip(rest);
      if Truthy(v) {
        var piece := name + ['='] + Render(v);
        assert Param(name, v) == piece + ['&'];
        assert BuildQuery(params) == piece + ['&'] + BuildQuery(rest);
        assert '&' !in piece;
        assert piece != "" by { assert |piece| > |name|; }
        ParseQueryPiece(piece, BuildQuery(rest));
        assert name + "=" + Render(v) == piece;
        SplitPairOf(name, Render(v));
        assert Sent(params) == [(name, Render(v))] + Sent(rest);
      } else {
        assert BuildQuery(params) == BuildQuery(rest);
        assert Sent(params) == Sent(rest);
      }
    }
  }

  /** Integers render without `&`, `#`, `%`, `+` or `=`. */
  lemma NumberIsQuerySafe(n: int)
    ensures QueryName(Text.IntToString(n))
  {
    var m: nat := if n < 0 then -n else n;
    Text.NatToStringRoundTrip(m);
    var d := Text.NatToString(m);
    DigitsAreNames(d);
    if n < 0 {
      assert Text.IntToString(n) == "-" + d;
    }
  }

  lemma DigitsAreNames(d: string)
    requires Text.IsDigits(d)
    ensures QueryName(d)
  {
    assert forall i :: 0 <= i < |d| ==> d[i] != '&' && d[i] != '#' && d[i] != '%' && d[i] != '+' && d[i] != '=';
  }

  // ---------------------------------------------------------------------
  // getStudentList / getTeacherList
  // ---------------------------------------------------------------------

  const StudentListPath := BaseUrl + "/api/admin/students/list/?"
  const TeacherListPath := BaseUrl + "/api/admin/teachers/list/?"

  function StudentListParams(deptId: JsVal, semester: JsVal, search: JsVal): seq<(string, JsVal)> {
    [("department_id", deptId), ("semester", semester), ("search", search)]
  }

  function TeacherListParams(deptId: JsVal, search: JsVal): seq<(string, JsVal)> {
    [("department_id", deptId), ("search", search)]
  }

  /** The query of a three-parameter list is the three pieces in order. */
  lemma BuildQuery3(a: (string, JsVal), b: (string, JsVal), c: (string, JsVal))
    ensures BuildQuery([a, b, c]) == Param(a.0, a.1) + Param(b.0, b.1) + Param(c.0, c.1)
  {
    assert [a, b, c][1..] == [b, c];
    assert [b, c][1..] == [c];
    assert [c][1..] == [];
    assert BuildQuery([c]) == Param(c.0, c.1);
    assert BuildQuery([b, c]) == Param(b.0, b.1) + Param(c.0, c.1);
    assert BuildQuery([a, b, c]) == Param(a.0, a.1) + (Param(b.0, b.1) + Param(c.0, c.1));
    Assoc(Param(a.0, a.1), Param(b.0, b.1), Param(c.0, c.1));
  }

  /** `url += `name=${v}&`` appends exactly `Param(name, v)` when `v` is truthy. */
  lemma AppendsParam(url: string, name: string, v: JsVal)
    requires Truthy(v)
    ensures url + (name + "=") + Render(v) + "&" == url + Param(name, v)
  {
  }

  lemma Assoc(a: string, b: string, c: string)
    ensures a + b + c == a + (b + c)
  {
  }

  /** One `if (v) url += `name=${v}&`` step of the list builders. */
  method AppendParam(url: string, name: string, v: JsVal) returns (next: string)
    ensures next == url + Param(name, v)
  {
    next := url;
    if Truthy(v) {
      AppendsParam(url, name, v);
      next := next + (name + "=") + Render(v) + "&";
    }
  }

  /** `getStudentList`'s URL: the list path ending in `?`, then each truthy parameter followed by `&`. */
  method StudentListUrl(deptId: JsVal, semester: JsVal, search: JsVal) returns (url: string)
    ensures url == StudentListPath + BuildQuery(StudentListParams(deptId, semester, search))
  {
    url := StudentListPath;
    url := AppendParam(url, "department_id", deptId);
    url := AppendParam(url, "semester", semester);
    url := AppendParam(url, "search", search);
    var p1, p2, p3 := Param("department_id", deptId), Param("semester", semester), Param("search", search);
    BuildQuery3(("department_id", deptId), ("semester", semester), ("search", search));
    Assoc(StudentListPath + p1, p2, p3);
    Assoc(StudentListPath, p1, p2 + p3);
    Assoc(p1, p2, p3);
  }

  /** `getTeacherList`'s URL: the same scheme with only the department and the search text. */
  method TeacherListUrl(deptId: JsVal, search: JsVal) returns (url: string)
    ensures url == TeacherListPath + BuildQuery(TeacherListParams(deptId, search))
  {
    url := TeacherListPath;
    url := AppendParam(url, "department_id", deptId);
    url := AppendParam(url, "search", search);
    var p1, p2 := Param("department_id", deptId), Param("search", search);
    var params := TeacherListParams(deptId, search);
    assert params[1..] == [("search", search)];
    assert params[1..][1..] == [];
    assert BuildQuery(params[1..]) == p2;
    assert BuildQuery(params) == p1 + p2;
    Assoc(TeacherListPath, p1, p2);
  }

  /** The parameter names the list builders use. */
  lemma ListNamesArePlain()
    ensures QueryName("department_id") && QueryName("semester") && QueryName("search")
  {
    LowercaseIsName("department_id");
    LowercaseIsName("semester");
    LowercaseIsName("search");
  }

  lemma LowercaseIsName(s: string)
    requires forall i :: 0 <= i < |s| ==> 'a' <= s[i] <= 'z' || s[i] == '_'
    ensures QueryName(s)
  {
    assert forall i :: 0 <= i < |s| ==> s[i] != '&' && s[i] != '#' && s[i] != '%' && s[i] != '+' && s[i] != '=';
  }


  /**
   * The server receives department_id, semester and search in that order,
   * each exactly when it was truthy, with its rendered value.
   */
  lemma StudentListQuery(deptId: JsVal, semester: JsVal, search: JsVal)
    requires QuerySafe(Render(deptId)) && QuerySafe(Render(semester)) && QuerySafe(Render(search))
    ensures ParseQuery(BuildQuery(StudentListParams(deptId, semester, search)))
         == (if Truthy(deptId) then [("department_id", Render(deptId))] else [])
          + (if Truthy(semester) then [("semester", Render(semester))] else [])
          + (if Truthy(search) then [("search", Render(search))] else [])
  {
    var a, b, c := ("department_id", deptId), ("semester", semester), ("search", search);
    ListNamesArePlain();
    SafeList([a, b, c]);
    QueryRoundTrip([a, b, c]);
    Sent3(a, b, c);
  }

  /** The teacher list's query holds department_id then search, each exactly when truthy. */
  lemma TeacherListQuery(deptId: JsVal, search: JsVal)
    requires QuerySafe(Render(deptId)) && QuerySafe(Render(search))
    ensures ParseQuery(BuildQuery(TeacherListParams(deptId, search)))
         == (if Truthy(deptId) then [("department_id", Render(deptId))] else [])
          + (if Truthy(search) then [("search", Render(search))] else [])
  {
    var a, b := ("department_id", deptId), ("search", search);
    ListNamesArePlain();
    SafeList([a, b]);
    QueryRoundTrip([a, b]);
    Sent2(a, b);
  }

  /** A short list whose every name and value is query-safe, stated element by element. */
  lemma SafeList(params: seq<(string, JsVal)>)
    requires |params| <= 3
    requires |params| > 0 ==> QueryName(params[0].0) && QuerySafe(Render(params[0].1))
    requires |params| > 1 ==> QueryName(params[1].0) && QuerySafe(Render(params[1].1))
    requires |params| > 2 ==> QueryName(params[2].0) && QuerySafe(Render(params[2].1))
    ensures forall i :: 0 <= i < |params| ==> QueryName(params[i].0) && QuerySafe(Render(params[i].1))
  {
  }

  lemma Sent2(a: (string, JsVal), b: (string, JsVal))
    ensures Sent([a, b]) == SentOne(a) + SentOne(b)
  {
    assert [a, b][1..] == [b];
    assert [b][1..] == [];
    assert Sent([b]) == SentOne(b) + [];
  }

  lemma Sent3(a: (string, JsVal), b: (string, JsVal), c: (string, JsVal))
    ensures Sent([a, b, c]) == SentOne(a) + SentOne(b) + SentOne(c)
  {
    assert [a, b, c][1..] == [b, c];
    Sent2(b, c);
    assert Sent([a, b, c]) == SentOne(a) + (SentOne(b) + SentOne(c));
  }

  /** Text after `&` inside a piece: `a&name=value` is read as two pairs. */
  lemma SplitsInTwo(key: string, a: string, name: string, value: string, rest: string)
    requires '=' !in key && QuerySafe(key) && QuerySafe(a) && QueryName(name) && QuerySafe(value)
    requires rest == "" || (rest == "&")
    ensures ParseQuery(key + "=" + (a + "&" + name + "=" + value) + rest) == [(key, a), (name, value)]
  {
    var first := key + ['='] + a;
    var second := name + ['='] + value;
    var whole := key + "=" + (a + "&" + name + "=" + value) + rest;
    assert whole == first + ['&'] + (second + rest);
    assert '&' !in first;
    assert first != "" by { assert |first| > |key|; }
    ParseQueryPiece(first, second + rest);
    assert ParseQuery(whole) == [SplitPair(first)] + ParseQuery(second + rest);
    SplitPairOf(key, a);
    assert key + "=" + a == first;
    assert SplitPair(first) == (key, a);
    SecondPiece(name, value, rest);
  }

  lemma SecondPiece(name: string, value: string, rest: string)
    requires QueryName(name) && QuerySafe(value)
    requires rest == "" || (rest == "&")
    ensures ParseQuery(name + ['='] + value + rest) == [(name, value)]
  {
    var second := name + ['='] + value;
    assert '&' !in second;
    assert second != "" by { assert |second| > |name|; }
    if rest == "" {
      assert second + rest == second;
      assert SplitOn(second, '&') == [second];
      assert Pairs([second]) == [SplitPair(second)] + Pairs([]);
    } else {
      assert second + rest == second + ['&'] + "";
      ParseQueryPiece(second, "");
      ParseQueryEmpty();
    }
    SplitPairOf(name, value);
    assert name + "=" + value == second;
  }

  /**
   * The search text is not encoded: searching for `a&name=value` makes the
   * server see a parameter `name` the caller never set (with `name` being
   * "semester", a semester filter).
   */
  lemma SearchTextInjectsParameter(a: string, name: string, value: string)
    requires QuerySafe(a) && QueryName(name) && QuerySafe(value)
    ensures ParseQuery(BuildQuery(StudentListParams(Undefined, Undefined, Str(a + "&" + name + "=" + value))))
         == [("search", a), (name, value)]
  {
    var text := a + "&" + name + "=" + value;
    BuildQuery3(("department_id", Undefined), ("semester", Undefined), ("search", Str(text)));
    assert text != "" by { assert |text| > |a|; }
    assert BuildQuery(StudentListParams(Undefined, Undefined, Str(text))) == "search" + "=" + text + "&";
    ListNamesArePlain();
    SplitsInTwo("search", a, name, value, "&");
  }

  // ---------------------------------------------------------------------
  // searchStudents
  // ---------------------------------------------------------------------

  const SearchPath := BaseUrl + "/api/admin/search/students/?"

  /** `searchStudents`' URL: the query text pasted after `?q=` as it is. */
  function SearchUrl(query: JsVal): string {
    SearchPath + "q=" + Render(query)
  }

  /** The query part of a search URL: `q=` and the text. */
  lemma SearchUrlTail(query: JsVal)
    ensures |SearchUrl(query)| >= |SearchPath|
    ensures SearchUrl(query)[|SearchPath|..] == "q" + "=" + Render(query)
  {
    Assoc(SearchPath, "q=", Render(query));
    assert "q=" == "q" + "=";
  }

  /** With query-safe text the server sees one parameter `q` holding the text. */
  lemma SearchUrlQuery(query: JsVal)
    requires QuerySafe(Render(query))
    ensures |SearchUrl(query)| >= |SearchPath|
    ensures ParseQuery(SearchUrl(query)[|SearchPath|..]) == [("q", Render(query))]
  {
    SearchUrlTail(query);
    var piece := "q" + ['='] + Render(query);
    assert "q" + "=" + Render(query) == piece;
    assert '&' !in piece;
    assert SplitOn(piece, '&') == [piece];
    assert piece != "" by { assert |piece| >= 2; }
    assert Pairs([piece]) == [SplitPair(piece)] + Pairs([]);
    SplitPairOf("q", Render(query));
  }

  /** The same text cut at `&`: searching for `a&name=value` sends `q=a` and a stray parameter. */
  lemma SearchTextNotEncoded(a: string, name: string, value: string)
    requires QuerySafe(a) && QueryName(name) && QuerySafe(value)
    ensures ParseQuery(SearchUrl(Str(a + "&" + name + "=" + value))[|SearchPath|..]) == [("q", a), (name, value)]
  {
    SearchUrlTail(Str(a + "&" + name + "=" + value));
    assert "q" + "=" + (a + "&" + name + "=" + value) + "" == "q" + "=" + (a + "&" + name + "=" + value);
    SplitsInTwo("q", a, name, value, "");
  }

  // ---------------------------------------------------------------------
  // getExportUrl
  // ---------------------------------------------------------------------

  const ExportPath := BaseUrl + "/api/admin/export/semester/"

  /** `getExportUrl`: the export path with the four values as path segments. */
  function ExportUrl(deptId: JsVal, semester: JsVal, year: JsVal, month: JsVal): string {
    ExportPath + Render(deptId) + "/" + Render(semester) + "/" + Render(year) + "/" + Render(month) + "/"
  }

  /**
   * When none of the values renders with a `/`, the path after
   * `/api/admin/export/semester/` splits into the four values, in order,
   * and the empty segment after the closing `/`.
   */
  lemma ExportSegments(deptId: JsVal, semester: JsVal, year: JsVal, month: JsVal)
    requires '/' !in Render(deptId) && '/' !in Render(semester) && '/' !in Render(year) && '/' !in Render(month)
    ensures |ExportUrl(deptId, semester, year, month)| >= |ExportPath|
    ensures SplitOn(ExportUrl(deptId, semester, year, month)[|ExportPath|..], '/')
         == [Render(deptId), Render(semester), Render(year), Render(month), ""]
  {
    var d, s, y, m := Render(deptId), Render(semester), Render(year), Render(month);
    PeelPrefix(ExportPath, d, s, y, m, '/');
    SplitFour(d, s, y, m, '/');
  }

  /** The text after a prefix `p` of a path built by appending segments and separators. */
  lemma PeelPrefix(p: string, d: string, s: string, y: string, m: string, sep: char)
    ensures |p + d + [sep] + s + [sep] + y + [sep] + m + [sep]| >= |p|
    ensures (p + d + [sep] + s + [sep] + y + [sep] + m + [sep])[|p|..] == d + [sep] + s + [sep] + y + [sep] + m + [sep]
  {
    assert p + d + [sep] + s + [sep] + y + [sep] + m + [sep] == p + (d + [sep] + s + [sep] + y + [sep] + m + [sep]);
  }

  lemma SplitFour(d: string, s: string, y: string, m: string, sep: char)
    requires sep !in d && sep !in s && sep !in y && sep !in m
    ensures SplitOn(d + [sep] + s + [sep] + y + [sep] + m + [sep], sep) == [d, s, y, m, ""]
  {
    var t3 := m + [sep] + "";
    var t2 := y + [sep] + t3;
    var t1 := s + [sep] + t2;
    assert d + [sep] + s + [sep] + y + [sep] + m + [sep] == d + [sep] + t1;
    SplitOnJoin(m, sep, "");
    assert SplitOn("", sep) == [""];
    Displays(d, s, y, m, "");
    assert SplitOn(t3, sep) == [m, ""];
    SplitOnJoin(y, sep, t3);
    assert SplitOn(t2, sep) == [y, m, ""];
    SplitOnJoin(s, sep, t2);
    assert SplitOn(t1, sep) == [s, y, m, ""];
    SplitOnJoin(d, sep, t1);
    Displays(d, s, y, m, "");
  }

  lemma Displays<T>(a: T, b: T, c: T, d: T, e: T)
    ensures [d] + [e] == [d, e]
    ensures [c] + [d, e] == [c, d, e]
    ensures [b] + [c, d, e] == [b, c, d, e]
    ensures [a] + [b, c, d, e] == [a, b, c, d, e]
  {
  }

  /** Numbers render without `/`, so numeric ids, semesters, years and months each fill one segment. */
  lemma NumberHasNoSlash(n: int)
    ensures '/' !in Render(Num(n))
  {
    var m: nat := if n < 0 then -n else n;
    Text.NatToStringRoundTrip(m);
    var d := Text.NatToString(m);
    assert forall i :: 0 <= i < |d| ==> d[i] != '/';
    if n < 0 {
      assert Text.IntToString(n) == "-" + d;
    }
  }


  // ---------------------------------------------------------------------
  // getAdminStats / adminLogin
  // ---------------------------------------------------------------------

  const StatNames: set<string> := {"students", "teachers", "departments", "subjects"}

  /** `getAdminStats`: the server's counts, or all four counts 0 when the request fails. */
  function AdminStats(outcome: Http.Outcome): (r: JsonObject)
    ensures Http.Ok(outcome) ==> r == outcome.body
    ensures !Http.Ok(outcome) ==> r.Keys == StatNames && forall k :: k in r ==> r[k] == Num(0)
  {
    if Http.Ok(outcome) then outcome.body
    else map["students" := Num(0), "teachers" := Num(0), "departments" := Num(0), "subjects" := Num(0)]
  }

  /** `adminLogin`: the body on success; otherwise it throws the server's `error` if truthy, else "Login Failed". */
  function AdminLogin(outcome: Http.Outcome): (r: Http.Call<JsonObject>)
    ensures r.Returned? <==> Http.Ok(outcome)
    ensures r.Returned? ==> r.value == outcome.body
    ensures r.Threw? ==> Truthy(r.error)
    ensures r.Threw? && outcome.Responded? && Truthy(Get(outcome.body, "error")) ==>
      r.error == Get(outcome.body, "error")
    ensures r.Threw? && !(outcome.Responded? && Truthy(Get(outcome.body, "error"))) ==>
      r.error == Str("Login Failed")
  {
    if Http.Ok(outcome) then Http.Returned(outcome.body)
    else if outcome.Responded? && Truthy(Get(outcome.body, "error")) then Http.Threw(Get(outcome.body, "error"))
    else Http.Threw(Str("Login Failed"))
  }

  /** The body `AdminLoginView` sends with each of its replies. */
  function AdminLoginBody(reply: AdminViews.LoginReply): JsonObject {
    match reply
    case InvalidCredentials => map["error" := Str("Invalid credentials")]
    case NotAdmin => map["error" := Str("Access Denied: Not an Admin")]
    case AdminLoggedIn(id, username, superuser) =>
      map["message" := Str("Login successful"), "user_id" := Num(id), "username" := Str(username),
          "is_superuser" := Bool(superuser)]
  }

  /**
   * Against the admin login view, the client returns exactly for staff
   * users, and otherwise throws the view's own message.
   */
  lemma AdminLoginAgainstView(reply: AdminViews.LoginReply)
    ensures var r := AdminLogin(Http.Responded(reply.Status(), AdminLoginBody(reply)));
      && (r.Returned? <==> reply.AdminLoggedIn?)
      && (reply.InvalidCredentials? ==> r == Http.Threw(Str("Invalid credentials")))
      && (reply.NotAdmin? ==> r == Http.Threw(Str("Access Denied: Not an Admin")))
  {
  }
}
