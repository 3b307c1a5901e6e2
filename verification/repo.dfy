/** The pure parts of repository creation: reading the `curl -w "\n%{http_code}"`
    output of a create-repository request, recognising "repository already exists"
    replies, classifying the outcome and building the `origin` remote URL. */
module Repo {
  import opened Wrappers
  import opened Strings

  /** The hosting services the create flow knows. */
  datatype Provider = GitHub | Gitee

  /** A response body with the HTTP status code curl wrote after it. */
  datatype CurlResponse = CurlResponse(body: string, statusCode: nat)

  /** `Number(text)` for the status line: the value of a decimal digit string,
      otherwise 0 (`NaN`, and `Number("")`, both become 0). */
  function StatusNumber(text: string): (r: nat)
    ensures forall n: nat :: text == NatToString(n) ==> r == n
    ensures (exists i :: 0 <= i < |text| && !IsDigit(text[i])) ==> r == 0
  {
    assert forall n: nat :: text == NatToString(n) ==> ParseDecimal(text) == Some(n) by {
      forall n: nat | text == NatToString(n) ensures ParseDecimal(text) == Some(n) {
        ParseNatToString(n);
      }
    }
    match ParseDecimal(text)
    case Some(n) => n
    case None => 0
  }

  /** Splits curl's output at its last line break: the trimmed text before it is the
      body, the number after it the status. Output without a line break (after
      trimming) is all body, with status 0. */
  function ParseCurlResponse(output: string): (r: CurlResponse)
    ensures '\n' !in Trim(output) ==> r == CurlResponse(Trim(output), 0)
    ensures Trimmed(r.body)
    ensures |r.body| <= |output|
  {
    var trimmed := Trim(output);
    var lastNewline := LastIndexOf(trimmed, '\n');
    if lastNewline == -1 then
      CurlResponse(trimmed, 0)
    else
      CurlResponse(Trim(trimmed[..lastNewline]), StatusNumber(Trim(trimmed[lastNewline + 1..])))
  }

  /** A line break with no line break after it, found by `lastIndexOf`, splits the
      text into what comes before and after it. */
  lemma LastLineBreak(text: string, head: string, tail: string)
    requires text == head + "\n" + tail && '\n' !in tail
    ensures LastIndexOf(text, '\n') == |head|
    ensures text[..|head|] == head && text[|head| + 1..] == tail
  {
    assert text[|head|] == '\n';
    assert forall j :: |head| < j < |text| ==> text[j] == tail[j - |head| - 1];
  }

  /** Parsing, once the trimmed output is split at its last line break. */
  lemma ParseCurlSplit(output: string, head: string, tail: string)
    requires Trim(output) == head + "\n" + tail && '\n' !in tail
    ensures ParseCurlResponse(output) == CurlResponse(Trim(head), StatusNumber(Trim(tail)))
  {
    LastLineBreak(Trim(output), head, tail);
  }

  /** A string without leading whitespace trims like the string it was cut from. */
  lemma TrimOfTrimStart(s: string)
    ensures Trim(TrimStart(s)) == Trim(s)
  {
    var lead := TrimStart(s);
    assert TrimStart(lead) == lead;
  }

  /** A decimal spelling holds no line break. */
  lemma DigitsNoLineBreak(code: nat)
    ensures '\n' !in NatToString(code)
  {
    var digits := NatToString(code);
    assert forall i :: 0 <= i < |digits| ==> IsDigit(digits[i]);
  }

  /** A decimal spelling does not end in whitespace. */
  lemma DigitsEndVisible(code: nat)
    ensures var digits := NatToString(code); !IsWhitespace(digits[|digits| - 1])
  {
    var digits := NatToString(code);
    assert IsDigit(digits[|digits| - 1]);
  }

  /** A status code's decimal spelling is read back as the code. */
  lemma StatusOfCode(code: nat)
    ensures StatusNumber(Trim(NatToString(code))) == code
  {
    var digits := NatToString(code);
    assert Trim(digits) == digits by {
      DigitsEndVisible(code);
      assert !IsWhitespace(digits[0]) by {
        assert IsDigit(digits[0]);
      }
      TrimmedFixed(digits);
    }
  }

  /** Trimming curl's output for a body that is not blank keeps the line break. */
  lemma CurlOutputTrim(body: string, code: nat)
    requires TrimStart(body) != []
    ensures var digits := NatToString(code);
      Trim(body + "\n" + digits) == TrimStart(body) + "\n" + digits
  {
    var digits := NatToString(code);
    var rest := "\n" + digits;
    DigitsEndVisible(code);
    assert rest[|rest| - 1] == digits[|digits| - 1];
    TrimAppendEnd(body, rest);
    Associative(body, "\n", digits);
    Associative(TrimStart(body), "\n", digits);
  }

  /** Curl's output for a body that is not blank and a status code reads back as the
      trimmed body and that code. */
  lemma ParseCurlRoundTrip(body: string, code: nat)
    requires TrimStart(body) != []
    ensures ParseCurlResponse(body + "\n" + NatToString(code)) == CurlResponse(Trim(body), code)
  {
    CurlOutputTrim(body, code);
    DigitsNoLineBreak(code);
    ParseCurlSplit(body + "\n" + NatToString(code), TrimStart(body), NatToString(code));
    TrimOfTrimStart(body);
    StatusOfCode(code);
  }

  /** A blank body swallows the line break: the status code is read as the body and
      the status is 0. */
  lemma ParseCurlBlankBody(body: string, code: nat)
    requires AllWhitespace(body)
    ensures ParseCurlResponse(body + "\n" + NatToString(code)) == CurlResponse(NatToString(code), 0)
  {
    var digits := NatToString(code);
    assert AllWhitespace(body + "\n");
    assert body + "\n" + digits == (body + "\n") + digits + [];
    TrimAround(body + "\n", digits, []);
  }

  /** The reply says the repository already exists: the lower-cased body contains
      one of the phrases the services use. */
  predicate IsRepoExistsMessage(body: string) {
    var text := ToLower(body);
    || Contains(text, "already exists")
    || Contains(text, "name already exists")
    || Contains(text, "已存在")
    || Contains(text, "已被占用")
    || Contains(text, "repo name already exists")
  }

  /** A text that contains a longer phrase ending in "already exists" contains "already exists". */
  lemma AlreadyExistsWithin(text: string, phrase: string, at: nat)
    requires Contains(text, phrase) && OccursAt(phrase, "already exists", at)
    ensures Contains(text, "already exists")
  {
    ContainsTransitive(text, phrase, "already exists");
  }

  /** Two of the listed phrases contain the first one, so three phrases decide. */
  lemma RepoExistsCore(body: string)
    ensures IsRepoExistsMessage(body) <==>
      Contains(ToLower(body), "already exists") || Contains(ToLower(body), "已存在") || Contains(ToLower(body), "已被占用")
  {
    var text := ToLower(body);
    if Contains(text, "name already exists") {
      AlreadyExistsWithin(text, "name already exists", 5);
    }
    if Contains(text, "repo name already exists") {
      AlreadyExistsWithin(text, "repo name already exists", 10);
    }
  }

  /** A string of digits contains no phrase that starts with something else. */
  lemma DigitsLackPhrase(text: string, phrase: string)
    requires forall i :: 0 <= i < |text| ==> IsDigit(text[i])
    requires phrase != [] && !IsDigit(phrase[0])
    ensures !Contains(text, phrase)
  {
    forall i | 0 <= i <= |text| ensures !OccursAt(text, phrase, i) {
      if i + |phrase| <= |text| {
        assert text[i..i + |phrase|][0] == text[i];
      }
    }
  }

  /** A status code alone never reads as an already-exists reply. */
  lemma DigitsNotExistsMessage(code: nat)
    ensures !IsRepoExistsMessage(NatToString(code))
  {
    var digits := NatToString(code);
    var text := ToLower(digits);
    assert forall i :: 0 <= i < |text| ==> IsDigit(text[i]) by {
      forall i | 0 <= i < |text| ensures IsDigit(text[i]) {
        assert IsDigit(digits[i]);
      }
    }
    DigitsLackPhrase(text, "already exists");
    DigitsLackPhrase(text, "已存在");
    DigitsLackPhrase(text, "已被占用");
    RepoExistsCore(digits);
  }

  /** The test ignores letter case. */
  lemma RepoExistsIgnoresCase(body: string)
    ensures IsRepoExistsMessage(ToLower(body)) <==> IsRepoExistsMessage(body)
  {
    ToLowerIdempotent(body);
  }

  /** What a create request ended in. */
  datatype CreateOutcome = Created | Exists | Failed(message: string)

  /** The status codes with which each service reports a name that is taken. */
  predicate TakenStatus(provider: Provider, statusCode: nat) {
    match provider
    case GitHub => statusCode == 422
    case Gitee => statusCode == 400 || statusCode == 409
  }

  /** The error text used when the reply has no body. */
  function FallbackMessage(provider: Provider): string {
    match provider
    case GitHub => "Failed to create GitHub repo"
    case Gitee => "Failed to create Gitee repo"
  }

  /** The outcome of a create request: 201 is success, a "taken" status with an
      already-exists body is an existing repository, anything else an error carrying
      the body, or a fixed text when the body is empty. */
  function ClassifyCreate(provider: Provider, parsed: CurlResponse): (r: CreateOutcome)
    ensures r.Created? <==> parsed.statusCode == 201
    ensures r.Exists? <==> TakenStatus(provider, parsed.statusCode) && IsRepoExistsMessage(parsed.body)
    ensures r.Failed? ==> r.message != [] && (parsed.body != [] ==> r.message == parsed.body)
  {
    if parsed.statusCode == 201 then Created
    else if TakenStatus(provider, parsed.statusCode) && IsRepoExistsMessage(parsed.body) then Exists
    else Failed(if parsed.body != [] then parsed.body else FallbackMessage(provider))
  }

  /** A reply with a body and status 201 is a created repository. */
  lemma CreatedReply(provider: Provider, body: string)
    requires TrimStart(body) != []
    ensures ClassifyCreate(provider, ParseCurlResponse(body + "\n" + NatToString(201))) == Created
  {
    ParseCurlRoundTrip(body, 201);
  }

  /** A reply whose body is blank is never a success, whatever its status: the
      status line is taken for the body. */
  lemma BlankReplyFails(provider: Provider, body: string, code: nat)
    requires AllWhitespace(body)
    ensures ClassifyCreate(provider, ParseCurlResponse(body + "\n" + NatToString(code))) == Failed(NatToString(code))
  {
    ParseCurlBlankBody(body, code);
    DigitsNotExistsMessage(code);
  }

  /** The host prefix of each service's HTTPS remote. */
  function Host(provider: Provider): string {
    match provider
    case GitHub => "https://github.com/"
    case Gitee => "https://gitee.com/"
  }

  /** The URL template of the `origin` remote. */
  function Remote(provider: Provider, username: string, name: string): string {
    Host(provider) + username + "/" + name + ".git"
  }

  /** Where the user name and repository name sit in a remote URL. */
  lemma RemoteParts(provider: Provider, username: string, name: string)
    ensures var r := Remote(provider, username, name);
      && |r| >= |Host(provider)| + 4
      && r[..|Host(provider)|] == Host(provider) && r[|r| - 4..] == ".git"
      && r[|Host(provider)|..|r| - 4] == username + "/" + name
  {
    var r := Remote(provider, username, name);
    assert r == Host(provider) + (username + "/" + name) + ".git";
  }

  /** The `origin` remote `setOriginRemote` sets for a user's repository on a service:
      none (the "Missing username" error) when the configured user name is absent or
      empty, otherwise the service's host, the user, the repository and `.git`. */
  function RemoteUrl(provider: Provider, username: Option<string>, name: string): (r: Option<string>)
    ensures r.None? <==> username.None? || username.value == []
    ensures r.Some? ==>
      && |r.value| > |Host(provider)| + 5
      && r.value[..|Host(provider)|] == Host(provider) && r.value[|r.value| - 4..] == ".git"
      && r.value[|Host(provider)|..|r.value| - 4] == username.value + "/" + name
  {
    if username.None? || username.value == [] then None
    else
      RemoteParts(provider, username.value, name);
      Some(Remote(provider, username.value, name))
  }

  /** Text cut at its first slash: the part before the slash has none. */
  lemma SplitAtSlash(u1: string, n1: string, u2: string, n2: string)
    requires '/' !in u1 && '/' !in u2
    requires u1 + "/" + n1 == u2 + "/" + n2
    ensures u1 == u2 && n1 == n2
  {
    var m := u1 + "/" + n1;
    assert forall i :: 0 <= i < |u1| ==> m[i] == u1[i];
    assert forall i :: 0 <= i < |u2| ==> m[i] == u2[i];
    assert m[|u1|] == '/' && m[|u2|] == '/';
    assert |u1| == |u2|;
    assert u1 == m[..|u1|] == u2;
    assert n1 == m[|u1| + 1..] == n2;
  }

  /** A remote URL names exactly one service, user and repository, as long as user
      names contain no slash. */
  lemma RemoteUrlInjective(p1: Provider, u1: Option<string>, n1: string, p2: Provider, u2: Option<string>, n2: string)
    requires (u1.Some? ==> '/' !in u1.value) && (u2.Some? ==> '/' !in u2.value)
    requires RemoteUrl(p1, u1, n1).Some? && RemoteUrl(p1, u1, n1) == RemoteUrl(p2, u2, n2)
    ensures p1 == p2 && u1 == u2 && n1 == n2
  {
    var r := RemoteUrl(p1, u1, n1).value;
    assert p1 == p2 by {
      assert r[..|Host(p1)|] == Host(p1) && r[..|Host(p2)|] == Host(p2);
      assert r[11] == Host(p1)[11] && r[11] == Host(p2)[11];
    }
    SplitAtSlash(u1.value, n1, u2.value, n2);
  }
}
