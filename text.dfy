/** Tokenising of log lines: `trim` and `split` of the program (src/battery.cpp:104-118). */
module Text {

  /** The characters `trim` removes by default: tab, newline, vertical tab, form feed,
      carriage return and space (the same set `isspace` accepts in the "C" locale). */
  predicate IsSpace(c: char) {
    c == '\t' || c == '\n' || c == '\U{000B}' || c == '\U{000C}' || c == '\r' || c == ' '
  }

  /** The number of white-space characters `s` starts with. */
  function LeadingSpaces(s: string): (n: nat)
    ensures n <= |s|
    ensures forall k :: 0 <= k < n ==> IsSpace(s[k])
    ensures n == |s| || !IsSpace(s[n])
  {
    if s != [] && IsSpace(s[0]) then 1 + LeadingSpaces(s[1..]) else 0
  }

  /** The position where the white space `s` ends with begins. */
  function TrailingStart(s: string): (n: nat)
    ensures n <= |s|
    ensures forall k :: n <= k < |s| ==> IsSpace(s[k])
    ensures n == 0 || !IsSpace(s[n - 1])
  {
    if s != [] && IsSpace(s[|s| - 1]) then TrailingStart(s[..|s| - 1]) else |s|
  }

  /** `s` with its leading white space removed. */
  function TrimLeft(s: string): string {
    s[LeadingSpaces(s)..]
  }

  /** `s` with its trailing white space removed. */
  function TrimRight(s: string): string {
    s[..TrailingStart(s)]
  }

  /** `s` with white space removed at both ends. */
  function Trimmed(s: string): string {
    TrimRight(TrimLeft(s))
  }

  /** Trimming removes only white space, and only at the ends: the result is a slice of `s`
      that neither starts nor ends with white space, and everything around it is white space. */
  lemma TrimmedSlice(s: string)
    ensures var r, lead := Trimmed(s), LeadingSpaces(s);
      && lead + |r| <= |s| && r == s[lead..lead + |r|]
      && (forall k :: 0 <= k < lead ==> IsSpace(s[k]))
      && (forall k :: lead + |r| <= k < |s| ==> IsSpace(s[k]))
      && (r == [] || (!IsSpace(r[0]) && !IsSpace(r[|r| - 1])))
  {
    var lead := LeadingSpaces(s);
    var l := s[lead..];
    var n := TrailingStart(l);
    var r := Trimmed(s);
    assert r == l[..n] == s[lead..lead + n];
    SpacesAfter(s, lead, n);
    if n > 0 {
      assert lead < |s| && l[0] == s[lead];
      assert r[0] == l[0] && r[n - 1] == l[n - 1];
    }
  }

  /** The characters after the trimmed part are white space. */
  lemma SpacesAfter(s: string, lead: nat, n: nat)
    requires lead <= |s| && n <= |s| - lead
    requires forall k :: n <= k < |s[lead..]| ==> IsSpace(s[lead..][k])
    ensures forall k :: lead + n <= k < |s| ==> IsSpace(s[k])
  {
    forall k | lead + n <= k < |s| ensures IsSpace(s[k]) {
      assert s[k] == s[lead..][k - lead];
    }
  }

  /** A string is its own trimming exactly when it is empty or has no white space at either end. */
  lemma TrimmedFixpoint(s: string)
    ensures Trimmed(s) == s <==> (s == [] || (!IsSpace(s[0]) && !IsSpace(s[|s| - 1])))
  {
    if s != [] && !IsSpace(s[0]) && !IsSpace(s[|s| - 1]) {
      assert LeadingSpaces(s) == 0;
      assert TrimLeft(s) == s;
    }
    TrimmedSlice(s);
  }

  /** Trimming twice is trimming once. */
  lemma TrimmedIdempotent(s: string)
    ensures Trimmed(Trimmed(s)) == Trimmed(s)
  {
    TrimmedSlice(s);
    TrimmedFixpoint(Trimmed(s));
  }

  /** `trim` (src/battery.cpp:104-108): erase the prefix up to the first character outside the
      white-space set, then everything after the last character outside it. When no such character
      exists `find_first_not_of` yields `npos` and the first erase empties the string. */
  method Trim(str: string) returns (t: string)
    ensures t == Trimmed(str)
  {
    var first := 0;
    while first < |str| && IsSpace(str[first])
      invariant 0 <= first <= |str|
      invariant forall k :: 0 <= k < first ==> IsSpace(str[k])
    {
      first := first + 1;
    }
    assert first == LeadingSpaces(str);
    t := str[first..];
    var last := |t|;
    while last > 0 && IsSpace(t[last - 1])
      invariant 0 <= last <= |t|
      invariant forall k :: last <= k < |t| ==> IsSpace(t[k])
    {
      last := last - 1;
    }
    assert last == TrailingStart(t);
    t := t[..last];
  }

  /** The pieces of `s` between occurrences of `d`, in order: there is always at least one, and the
      last one is empty when `s` is empty or ends with `d`. */
  function Pieces(s: string, d: char): (p: seq<string>)
    ensures |p| >= 1
  {
    if s == [] then [[]]
    else
      var init := Pieces(s[..|s| - 1], d);
      if s[|s| - 1] == d then init + [[]]
      else init[..|init| - 1] + [init[|init| - 1] + [s[|s| - 1]]]
  }

  /** The pieces joined back with `d` between them. */
  function Join(p: seq<string>, d: char): string
    requires |p| >= 1
  {
    if |p| == 1 then p[0] else Join(p[..|p| - 1], d) + [d] + p[|p| - 1]
  }

  /** Cutting at the delimiter loses nothing: the pieces contain no delimiter and joining them
      restores the string. */
  lemma {:induction false} PiecesJoin(s: string, d: char)
    ensures forall i :: 0 <= i < |Pieces(s, d)| ==> d !in Pieces(s, d)[i]
    ensures Join(Pieces(s, d), d) == s
  {
    if s != [] {
      var u, c := s[..|s| - 1], s[|s| - 1];
      PiecesJoin(u, d);
      assert s == u + [c];
      var p := Pieces(u, d);
      if c == d {
        assert Pieces(s, d) == p + [[]];
        JoinNewPiece(p, d);
      } else {
        assert Pieces(s, d) == p[..|p| - 1] + [p[|p| - 1] + [c]];
        JoinExtended(p, c, d);
      }
    }
  }

  /** A delimiter at the end opens an empty piece. */
  lemma JoinNewPiece(p: seq<string>, d: char)
    requires |p| >= 1
    ensures Join(p + [[]], d) == Join(p, d) + [d]
  {
    var q := p + [[]];
    assert q[..|q| - 1] == p;
  }

  /** Another character at the end extends the last piece. */
  lemma JoinExtended(p: seq<string>, c: char, d: char)
    requires |p| >= 1
    requires forall i :: 0 <= i < |p| ==> d !in p[i]
    requires c != d
    ensures var q := p[..|p| - 1] + [p[|p| - 1] + [c]];
      && (forall i :: 0 <= i < |q| ==> d !in q[i])
      && Join(q, d) == Join(p, d) + [c]
  {
    var q := p[..|p| - 1] + [p[|p| - 1] + [c]];
    assert forall i :: 0 <= i < |p| - 1 ==> q[i] == p[i];
    if |p| > 1 {
      assert q[..|q| - 1] == p[..|p| - 1];
    }
  }

  /** The fields `getline(stream, field, d)` extracts from `s` one after another: the pieces,
      except that a last piece with no characters is never extracted. */
  function Fields(s: string, d: char): (f: seq<string>) {
    var p := Pieces(s, d);
    if p[|p| - 1] == [] then p[..|p| - 1] else p
  }

  /** The value of `split(s, d)`: the fields of `s`, each trimmed. */
  function Tokens(s: string, d: char): (tokens: seq<string>)
    ensures |tokens| == |Fields(s, d)|
  {
    var f := Fields(s, d);
    seq(|f|, i requires 0 <= i < |f| => Trimmed(f[i]))
  }

  /** `split` (src/battery.cpp:110-118): each `getline` call extracts the characters up to the next
      delimiter (consuming it); a call that extracts nothing at the end of the stream fails and ends
      the loop. Each extracted field is trimmed and pushed. */
  method Split(s: string, delimiter: char) returns (tokens: seq<string>)
    ensures tokens == Tokens(s, delimiter)
  {
    tokens := [];
    var token := "";
    var i := 0;
    ghost var pieces: seq<string> := [[]];
    while i < |s|
      invariant 0 <= i <= |s|
      invariant pieces == Pieces(s[..i], delimiter)
      invariant |tokens| + 1 == |pieces|
      invariant forall k :: 0 <= k < |tokens| ==> tokens[k] == Trimmed(pieces[k])
      invariant token == pieces[|tokens|]
    {
      PiecesSnoc(s, i, delimiter);
      if s[i] == delimiter {
        var trimmed := Trim(token);
        tokens := tokens + [trimmed];
        token := "";
        pieces := pieces + [[]];
      } else {
        token := token + [s[i]];
        pieces := pieces[..|pieces| - 1] + [token];
      }
      i := i + 1;
    }
    assert s[..|s|] == s;
    var pushed := tokens;
    if token != "" {
      var trimmed := Trim(token);
      tokens := tokens + [trimmed];
    }
    SplitDone(s, delimiter, pushed, token, tokens);
  }

  /** One more character of `s`: a delimiter opens a new piece, anything else extends the last. */
  lemma PiecesSnoc(s: string, i: nat, d: char)
    requires i < |s|
    ensures var p, q := Pieces(s[..i], d), Pieces(s[..i + 1], d);
      if s[i] == d then q == p + [[]]
      else q == p[..|p| - 1] + [p[|p| - 1] + [s[i]]]
  {
    assert s[..i + 1][..i] == s[..i];
  }

  /** After the last character: the last piece is pushed when it is not empty. */
  lemma SplitDone(s: string, d: char, pushed: seq<string>, token: string, tokens: seq<string>)
    requires |pushed| + 1 == |Pieces(s, d)|
    requires forall k :: 0 <= k < |pushed| ==> pushed[k] == Trimmed(Pieces(s, d)[k])
    requires token == Pieces(s, d)[|pushed|]
    requires tokens == if token != "" then pushed + [Trimmed(token)] else pushed
    ensures tokens == Tokens(s, d)
  {
    var f := Fields(s, d);
    assert |tokens| == |f|;
    forall k | 0 <= k < |f| ensures tokens[k] == Trimmed(f[k]) {
    }
  }

  /** `s.rfind(prefix, 0) == 0`: `s` starts with `prefix`. */
  predicate StartsWith(s: string, prefix: string) {
    |prefix| <= |s| && s[..|prefix|] == prefix
  }
}
