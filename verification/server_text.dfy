/** The request-line helpers of the server: whitespace trimming, whitespace tokenizing, and the
    names the server puts on result codes in its responses. */
module ServerText {
  import opened OdfTypes
  import Paths

  /** `isspace` in the C locale: space, tab, newline, vertical tab, form feed, carriage return. */
  predicate IsSpace(c: char)
  {
    c == ' ' || c == '\t' || c == '\n' || c == 11 as char || c == 12 as char || c == '\r'
  }

  predicate AllSpace(s: string)
  {
    forall i :: 0 <= i < |s| ==> IsSpace(s[i])
  }

  predicate NoSpace(s: string)
  {
    forall i :: 0 <= i < |s| ==> !IsSpace(s[i])
  }

  /** The first loop of `trim_all`: advance `b` over whitespace. */
  function SkipSpace(s: string, b: nat): (r: nat)
    requires b <= |s|
    ensures b <= r <= |s|
    ensures AllSpace(s[b..r])
    ensures r < |s| ==> !IsSpace(s[r])
    decreases |s| - b
  {
    if b < |s| && IsSpace(s[b]) then SkipSpace(s, b + 1) else b
  }

  /** The second loop of `trim_all`: move `e` back over whitespace, never below `b`. */
  function BackSpace(s: string, b: nat, e: nat): (r: nat)
    requires b <= e < |s|
    ensures b <= r <= e
    ensures AllSpace(s[r + 1..e + 1])
    ensures r > b ==> !IsSpace(s[r])
    decreases e
  {
    if e > b && IsSpace(s[e]) then
      var r := BackSpace(s, b, e - 1);
      assert s[r + 1..e + 1] == s[r + 1..e] + [s[e]];
      r
    else e
  }

  /** `trim_all`: the text between the leading and the trailing whitespace. */
  function TrimAll(s: string): (r: string)
    ensures AllSpace(s) <==> r == []
    ensures r != [] ==> !IsSpace(r[0]) && !IsSpace(r[|r| - 1])
    ensures exists i, j :: 0 <= i <= j <= |s| && r == s[i..j] && AllSpace(s[..i]) && AllSpace(s[j..])
  {
    var b := SkipSpace(s, 0);
    if b == |s| then
      assert s[0..|s|] == s;
      assert s[..0] == [] && s[|s|..] == [];
      []
    else
      var e := BackSpace(s, b, |s| - 1);
      var r := s[b..e + 1];
      assert AllSpace(s[..b]) by { assert s[0..b] == s[..b]; }
      assert AllSpace(s[e + 1..]) by { assert s[e + 1..|s|] == s[e + 1..]; }
      assert !IsSpace(s[b]) && !IsSpace(s[e]);
      assert |r| > 0 && r[0] == s[b] && r[|r| - 1] == s[e];
      assert !AllSpace(s);
      r
  }

  /** Trimming twice trims nothing more. */
  lemma {:induction false} TrimIdempotent(s: string)
    ensures TrimAll(TrimAll(s)) == TrimAll(s)
  {
    var t := TrimAll(s);
    if t != [] {
      assert !AllSpace(t);
      var u := TrimAll(t);
      var i, j :| 0 <= i <= j <= |t| && u == t[i..j] && AllSpace(t[..i]) && AllSpace(t[j..]);
      assert t[0..|t|] == t;
    }
  }

  /** The loop of `tokenize_command` from position `i`, with the word `cur` being collected
      and the tokens already pushed. */
  function TokenizeFrom(line: string, i: nat, cur: string, tokens: seq<string>): seq<string>
    requires i <= |line|
    decreases |line| - i
  {
    if i == |line| then
      if |cur| > 0 then tokens + [cur] else tokens
    else if IsSpace(line[i]) then
      if |cur| > 0 then TokenizeFrom(line, i + 1, [], tokens + [cur])
      else TokenizeFrom(line, i + 1, cur, tokens)
    else
      TokenizeFrom(line, i + 1, cur + [line[i]], tokens)
  }

  /** `tokenize_command`: split a line on whitespace, dropping empty pieces. */
  function Tokenize(line: string): (tokens: seq<string>)
  {
    TokenizeFrom(line, 0, [], [])
  }

  /** The pieces between whitespace characters, empty ones included: the reference meaning of
      splitting a line on whitespace. */
  function Pieces(s: string): (p: seq<string>)
    ensures |p| >= 1
    decreases |s|
  {
    if s == [] then [[]]
    else
      var rest := Pieces(s[1..]);
      if IsSpace(s[0]) then [[]] + rest
      else [[s[0]] + rest[0]] + rest[1..]
  }

  /** No piece holds whitespace. */
  lemma {:induction false} PiecesNoSpace(s: string)
    ensures forall k :: 0 <= k < |Pieces(s)| ==> NoSpace(Pieces(s)[k])
    decreases |s|
  {
    if s != [] {
      PiecesNoSpace(s[1..]);
      var rest := Pieces(s[1..]);
      if !IsSpace(s[0]) {
        var head := [s[0]] + rest[0];
        assert NoSpace(rest[0]);
        assert forall i :: 0 < i < |head| ==> head[i] == rest[0][i - 1];
      }
    }
  }

  /** Extending a line by a whitespace character opens a new, empty piece. */
  lemma {:induction false} PiecesSnocSpace(s: string, c: char)
    requires IsSpace(c)
    ensures Pieces(s + [c]) == Pieces(s) + [[]]
    decreases |s|
  {
    if s == [] {
      assert [c][1..] == [];
    } else {
      assert (s + [c])[1..] == s[1..] + [c];
      assert (s + [c])[0] == s[0];
      PiecesSnocSpace(s[1..], c);
      var rest := Pieces(s[1..]);
      if !IsSpace(s[0]) {
        assert (rest + [[]])[1..] == rest[1..] + [[]];
      }
    }
  }

  /** A sequence of strings with `x` appended to its last member. */
  function GrowLast(p: seq<string>, x: string): (r: seq<string>)
    requires |p| >= 1
    ensures |r| == |p| && r[|p| - 1] == p[|p| - 1] + x && r[..|p| - 1] == p[..|p| - 1]
  {
    p[..|p| - 1] + [p[|p| - 1] + x]
  }

  /** Extending a line by any other character grows its last piece. */
  lemma {:induction false} PiecesSnocWord(s: string, c: char)
    requires !IsSpace(c)
    ensures Pieces(s + [c]) == GrowLast(Pieces(s), [c])
    decreases |s|
  {
    if s == [] {
      assert s + [c] == [c] && [c][1..] == [];
      var e: string := [];
      assert Pieces(e) == [[]];
      assert [c][1..] == e;
      assert [c] + Pieces(e)[0] == [c];
      assert Pieces([c]) == [[c] + Pieces(e)[0]] + Pieces(e)[1..];
    } else {
      assert (s + [c])[1..] == s[1..] + [c];
      assert (s + [c])[0] == s[0];
      PiecesSnocWord(s[1..], c);
      var rest := Pieces(s[1..]);
      if IsSpace(s[0]) {
        GrowLastBelowEmpty(rest, [c]);
      } else {
        GrowLastJoined([s[0]], rest, [c]);
      }
    }
  }

  /** Growing the last member commutes with putting an empty piece in front. */
  lemma GrowLastBelowEmpty(p: seq<string>, x: string)
    requires |p| >= 1
    ensures GrowLast([[]] + p, x) == [[]] + GrowLast(p, x)
  {
    var q := [[]] + p;
    assert q[..|q| - 1] == [[]] + p[..|p| - 1];
  }

  /** Growing the last member commutes with joining `h` to the front of the first. */
  lemma GrowLastJoined(h: string, p: seq<string>, x: string)
    requires |p| >= 1
    ensures var g := GrowLast(p, x);
            GrowLast([h + p[0]] + p[1..], x) == [h + g[0]] + g[1..]
  {
    var g := GrowLast(p, x);
    var q := [h + p[0]] + p[1..];
    if |p| == 1 {
      assert g == [p[0] + x];
      assert q == [h + p[0]];
      assert h + p[0] + x == h + (p[0] + x);
    } else {
      assert g[0] == p[0];
      assert g[1..] == p[1..|p| - 1] + [p[|p| - 1] + x];
      assert q[..|q| - 1] == [h + p[0]] + p[1..|p| - 1];
    }
  }

  /** What the loop of `tokenize_command` keeps after reading `s`: the word being collected is
      the last piece of `s`, and the tokens pushed are the non-empty pieces before it. */
  predicate Collected(s: string, cur: string, tokens: seq<string>)
  {
    var p := Pieces(s);
    p[|p| - 1] == cur && tokens == Paths.NonEmpty(p[..|p| - 1])
  }

  /** The loop keeps it to the end of the line. */
  lemma {:induction false} TokenizeFromPieces(line: string, i: nat, cur: string, tokens: seq<string>)
    requires i <= |line| && Collected(line[..i], cur, tokens)
    ensures TokenizeFrom(line, i, cur, tokens) == Paths.NonEmpty(Pieces(line))
    decreases |line| - i
  {
    if i == |line| {
      assert line[..i] == line;
      TokenizeEnd(line, cur, tokens);
    } else {
      var c := line[i];
      assert line[..i + 1] == line[..i] + [c];
      if IsSpace(c) {
        TokenizeSpaceStep(line[..i], c, cur, tokens);
        if |cur| > 0 {
          TokenizeFromPieces(line, i + 1, [], tokens + [cur]);
        } else {
          TokenizeFromPieces(line, i + 1, cur, tokens);
        }
      } else {
        TokenizeWordStep(line[..i], c, cur, tokens);
        TokenizeFromPieces(line, i + 1, cur + [c], tokens);
      }
    }
  }

  /** At the end of the line the word being collected is pushed unless it is empty. */
  lemma TokenizeEnd(s: string, cur: string, tokens: seq<string>)
    requires Collected(s, cur, tokens)
    ensures (if |cur| > 0 then tokens + [cur] else tokens) == Paths.NonEmpty(Pieces(s))
  {
    var p := Pieces(s);
    var init := p[..|p| - 1];
    assert p == init + [cur];
    Paths.NonEmptyAppend(init, [cur]);
    assert Paths.NonEmpty([cur]) == if |cur| > 0 then [cur] else [];
  }

  /** A whitespace character ends the word being collected, which is pushed unless empty. */
  lemma TokenizeSpaceStep(s: string, c: char, cur: string, tokens: seq<string>)
    requires Collected(s, cur, tokens) && IsSpace(c)
    ensures |cur| > 0 ==> Collected(s + [c], [], tokens + [cur])
    ensures |cur| == 0 ==> Collected(s + [c], cur, tokens)
  {
    var p := Pieces(s);
    PiecesSnocSpace(s, c);
    var p' := Pieces(s + [c]);
    assert p'[..|p'| - 1] == p;
    TokenizeEnd(s, cur, tokens);
  }

  /** Any other character grows the word being collected. */
  lemma TokenizeWordStep(s: string, c: char, cur: string, tokens: seq<string>)
    requires Collected(s, cur, tokens) && !IsSpace(c)
    ensures Collected(s + [c], cur + [c], tokens)
  {
    PiecesSnocWord(s, c);
  }

  /** `tokenize_command` yields exactly the non-empty pieces of the line between whitespace,
      in order. */
  lemma TokenizeIsPieces(line: string)
    ensures Tokenize(line) == Paths.NonEmpty(Pieces(line))
  {
    assert line[..0] == [];
    TokenizeFromPieces(line, 0, [], []);
  }

  /** Concatenation of a sequence of strings. */
  function Concat(p: seq<string>): string
  {
    if p == [] then [] else p[0] + Concat(p[1..])
  }

  /** The line with every whitespace character removed. */
  function Squeeze(s: string): (r: string)
    ensures NoSpace(r)
  {
    if s == [] then []
    else if IsSpace(s[0]) then Squeeze(s[1..])
    else [s[0]] + Squeeze(s[1..])
  }

  lemma {:induction false} ConcatAppend(p: seq<string>, q: seq<string>)
    ensures Concat(p + q) == Concat(p) + Concat(q)
    decreases |p|
  {
    if p == [] {
      assert p + q == q;
    } else {
      assert (p + q)[1..] == p[1..] + q;
      ConcatAppend(p[1..], q);
    }
  }

  lemma {:induction false} ConcatPieces(s: string)
    ensures Concat(Paths.NonEmpty(Pieces(s))) == Squeeze(s)
    decreases |s|
  {
    if s != [] {
      ConcatPieces(s[1..]);
      var rest := Pieces(s[1..]);
      var p := Pieces(s);
      if IsSpace(s[0]) {
        assert p == [[]] + rest;
        assert p[1..] == rest;
        assert Paths.NonEmpty(p) == Paths.NonEmpty(rest);
      } else {
        var head := [s[0]] + rest[0];
        var tailPieces := Paths.NonEmpty(rest[1..]);
        assert p == [head] + rest[1..];
        assert p[1..] == rest[1..];
        assert Paths.NonEmpty(p) == [head] + tailPieces;
        assert Concat(Paths.NonEmpty(p)) == head + Concat(tailPieces);
        assert rest == [rest[0]] + rest[1..];
        Paths.NonEmptyAppend([rest[0]], rest[1..]);
        ConcatAppend(Paths.NonEmpty([rest[0]]), tailPieces);
        assert Concat(Paths.NonEmpty([rest[0]])) == rest[0];
        assert Squeeze(s) == [s[0]] + Squeeze(s[1..]);
      }
    }
  }

  /** The tokens are non-empty and free of whitespace, their concatenation is the line without
      its whitespace, and an all-whitespace line has none. */
  lemma TokenizeProperties(line: string)
    ensures forall k :: 0 <= k < |Tokenize(line)| ==> Tokenize(line)[k] != [] && NoSpace(Tokenize(line)[k])
    ensures Concat(Tokenize(line)) == Squeeze(line)
    ensures AllSpace(line) ==> Tokenize(line) == []
  {
    TokenizeIsPieces(line);
    ConcatPieces(line);
    PiecesNoSpace(line);
    if AllSpace(line) {
      SqueezeAllSpace(line);
    }
  }

  lemma {:induction false} SqueezeAllSpace(s: string)
    requires AllSpace(s)
    ensures Squeeze(s) == []
    decreases |s|
  {
    if s != [] {
      SqueezeAllSpace(s[1..]);
    }
  }

  /** `error_to_string`: the response name of a result code. */
  function ErrorToString(code: int): (name: string)
    ensures code !in ErrorCodes() ==> name == "ERROR_UNKNOWN"
  {
    if code == SUCCESS then "SUCCESS"
    else if code == ERROR_NOT_FOUND then "ERROR_NOT_FOUND"
    else if code == ERROR_PERMISSION_DENIED then "ERROR_PERMISSION_DENIED"
    else if code == ERROR_IO_ERROR then "ERROR_IO_ERROR"
    else if code == ERROR_INVALID_PATH then "ERROR_INVALID_PATH"
    else if code == ERROR_FILE_EXISTS then "ERROR_EXISTS"
    else if code == ERROR_NO_SPACE then "ERROR_NO_SPACE"
    else if code == ERROR_INVALID_CONFIG then "ERROR_INVALID_CONFIG"
    else if code == ERROR_NOT_IMPLEMENTED then "ERROR_NOT_IMPLEMENTED"
    else if code == ERROR_INVALID_SESSION then "ERROR_INVALID_SESSION"
    else if code == ERROR_DIRECTORY_NOT_EMPTY then "ERROR_DIRECTORY_NOT_EMPTY"
    else if code == ERROR_INVALID_OPERATION then "ERROR_INVALID_OPERATION"
    else "ERROR_UNKNOWN"
  }
}
