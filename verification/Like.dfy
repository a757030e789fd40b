/**
 LIKE matching as PostgreSQL documents it (PostgreSQL 16 documentation, section
 9.7.1): `%` matches any run, `_` any one character, a backslash quotes the next.
 */
module Like {
  import opened Collections

  predicate Special(c: char) { c == '%' || c == '_' || c == '\\' }

  /** A search text without wildcards or quoting. */
  predicate Literal(q: string) { forall c | c in q :: !Special(c) }

  predicate Matches(p: string, t: string)
    decreases |p| + |t|
  {
    if p == "" then t == ""
    else if p[0] == '%' then Matches(p[1..], t) || (t != "" && Matches(p, t[1..]))
    else if p[0] == '_' then t != "" && Matches(p[1..], t[1..])
    else if p[0] == '\\' then |p| >= 2 && t != "" && t[0] == p[1] && Matches(p[2..], t[1..])
    else t != "" && t[0] == p[0] && Matches(p[1..], t[1..])
  }

  /** The pattern every search in the application uses. */
  function Anywhere(q: string): string { "%" + q + "%" }

  ghost predicate Contains(t: string, q: string) { exists i | 0 <= i <= |t| :: q <= t[i..] }

  lemma {:induction false} AnyTail(t: string)
    ensures Matches("%", t)
  {
    if t == "" {
    } else {
      AnyTail(t[1..]);
    }
  }

  /** A leading `%` may skip any number of characters. */
  lemma {:induction false} PercentSkips(p: string, t: string)
    ensures Matches("%" + p, t) <==> exists i | 0 <= i <= |t| :: Matches(p, t[i..])
  {
    assert ("%" + p)[1..] == p && t[0..] == t;
    if t == "" {
    } else {
      PercentSkips(p, t[1..]);
      assert forall i | 0 <= i <= |t| - 1 :: t[1..][i..] == t[i + 1..];
      if i :| 0 <= i <= |t| && Matches(p, t[i..]) && i > 0 { assert t[i..] == t[1..][i - 1..]; }
    }
  }

  // What a pattern means, independently of how it is matched

  /** `Dangling` is a backslash with nothing to quote: it fits no text. */
  datatype Token = Run | One | Just(c: char) | Dangling

  function Tokens(p: string): seq<Token> {
    if p == "" then []
    else if p[0] == '%' then [Run] + Tokens(p[1..])
    else if p[0] == '_' then [One] + Tokens(p[1..])
    else if p[0] != '\\' then [Just(p[0])] + Tokens(p[1..])
    else if |p| == 1 then [Dangling]
    else [Just(p[1])] + Tokens(p[2..])
  }

  predicate Fits(token: Token, piece: string) {
    match token
    case Run => true
    case One => |piece| == 1
    case Just(c) => piece == [c]
    case Dangling => false
  }

  function Join(pieces: seq<string>): string { if pieces == [] then "" else pieces[0] + Join(pieces[1..]) }

  /** `t` cut into one piece for each token, each fitting its token. */
  ghost predicate IsCut(tokens: seq<Token>, pieces: seq<string>, t: string) {
    && |pieces| == |tokens| && Join(pieces) == t
    && forall k | 0 <= k < |tokens| :: Fits(tokens[k], pieces[k])
  }

  lemma CutFirst(token: Token, tokens: seq<Token>, piece: string, pieces: seq<string>, t: string)
    requires Fits(token, piece) && IsCut(tokens, pieces, t)
    ensures IsCut([token] + tokens, [piece] + pieces, piece + t)
  {
    assert ([piece] + pieces)[1..] == pieces;
  }

  lemma CutRest(tokens: seq<Token>, pieces: seq<string>, t: string)
    requires tokens != [] && IsCut(tokens, pieces, t)
    ensures Fits(tokens[0], pieces[0]) && IsCut(tokens[1..], pieces[1..], t[|pieces[0]|..]) && t == pieces[0] + t[|pieces[0]|..]
  {
  }

  lemma {:induction false} MatchGivesCut(p: string, t: string) returns (pieces: seq<string>)
    requires Matches(p, t)
    ensures IsCut(Tokens(p), pieces, t)
    decreases |p| + |t|
  {
    if p == "" {
      pieces := [];
    } else if p[0] == '%' && Matches(p[1..], t) {
      pieces := MatchGivesCut(p[1..], t);
      CutFirst(Run, Tokens(p[1..]), "", pieces, t);
      pieces := [""] + pieces;
    } else if p[0] == '%' {
      pieces := MatchGivesCut(p, t[1..]);
      CutRest(Tokens(p), pieces, t[1..]);
      var longer := [t[0]] + pieces[0];
      CutFirst(Run, Tokens(p)[1..], longer, pieces[1..], t[1..][|pieces[0]|..]);
      assert longer + t[1..][|pieces[0]|..] == t && Tokens(p) == [Run] + Tokens(p)[1..];
      pieces := [longer] + pieces[1..];
    } else {
      var rest := if p[0] == '\\' then p[2..] else p[1..];
      pieces := MatchGivesCut(rest, t[1..]);
      CutFirst(Tokens(p)[0], Tokens(rest), [t[0]], pieces, t[1..]);
      assert [t[0]] + t[1..] == t;
      pieces := [[t[0]]] + pieces;
    }
  }

  lemma {:induction false} CutGivesMatch(p: string, t: string, pieces: seq<string>)
    requires IsCut(Tokens(p), pieces, t)
    ensures Matches(p, t)
    decreases |p| + |t|
  {
    if p == "" {
    } else {
      CutRest(Tokens(p), pieces, t);
      if p[0] != '%' {
        CutGivesMatch(if p[0] == '\\' then p[2..] else p[1..], t[1..], pieces[1..]);
      } else if pieces[0] == "" {
        CutGivesMatch(p[1..], t, pieces[1..]);
      } else {
        CutFirst(Run, Tokens(p)[1..], pieces[0][1..], pieces[1..], t[|pieces[0]|..]);
        assert t[1..] == pieces[0][1..] + t[|pieces[0]|..] && Tokens(p) == [Run] + Tokens(p)[1..];
        CutGivesMatch(p, t[1..], [pieces[0][1..]] + pieces[1..]);
      }
    }
  }

  ghost predicate CanBeCut(tokens: seq<Token>, t: string) { exists pieces :: IsCut(tokens, pieces, t) }

  /**
   For every pattern: a text matches exactly when it can be cut into pieces, one
   for each `%` (any piece), `_` (one character) and other or quoted character (itself).
   */
  lemma MatchesExactlyWhenCut(p: string, t: string)
    ensures Matches(p, t) <==> CanBeCut(Tokens(p), t)
  {
    if Matches(p, t) {
      var pieces := MatchGivesCut(p, t);
    }
    if CanBeCut(Tokens(p), t) {
      var pieces :| IsCut(Tokens(p), pieces, t);
      CutGivesMatch(p, t, pieces);
    }
  }

  /** One pattern character at the front: `_` takes any one character, a quoted one itself. */
  lemma FirstCharacter(c: char, p: string, t: string)
    ensures Matches("_" + p, t) <==> |t| >= 1 && Matches(p, t[1..])
    ensures Matches("\\" + [c] + p, t) <==> |t| >= 1 && t[0] == c && Matches(p, t[1..])
    ensures !Special(c) ==> (Matches([c] + p, t) <==> |t| >= 1 && t[0] == c && Matches(p, t[1..]))
  {
    assert ("_" + p)[1..] == p && ("\\" + [c] + p)[2..] == p && ([c] + p)[1..] == p;
  }

  /** A text that may hold `_` but neither `%` nor backslash: each of its characters stands for one character. */
  predicate Fixed(q: string) { forall c | c in q :: c != '%' && c != '\\' }

  /** `q` fits `t` from position `i` on, character by character. */
  predicate FitsAt(q: string, t: string, i: nat) {
    i + |q| <= |t| && forall k | 0 <= k < |q| :: q[k] == '_' || q[k] == t[i + k]
  }

  lemma {:induction false} FixedPrefix(q: string, t: string)
    requires Fixed(q)
    ensures Matches(q, t) <==> |q| == |t| && FitsAt(q, t, 0)
    ensures Matches(q + "%", t) <==> FitsAt(q, t, 0)
  {
    if q == "" {
      AnyTail(t);
      assert q + "%" == "%";
    } else {
      assert q[0] in q && (q + "%")[1..] == q[1..] + "%";
      if t != "" {
        assert forall c | c in q[1..] :: c in q;
        FixedPrefix(q[1..], t[1..]);
        assert FitsAt(q, t, 0) <==> (q[0] == '_' || q[0] == t[0]) && FitsAt(q[1..], t[1..], 0) by {
          if FitsAt(q[1..], t[1..], 0) {
            assert forall k | 1 <= k < |q| :: q[k] == q[1..][k - 1] && t[k] == t[1..][k - 1];
          }
        }
      }
    }
  }

  /** Searching for it finds exactly the texts it fits somewhere. */
  lemma FixedFinds(q: string, t: string)
    requires Fixed(q)
    ensures Matches(Anywhere(q), t) <==> exists i: nat :: FitsAt(q, t, i)
  {
    assert Anywhere(q) == "%" + (q + "%");
    PercentSkips(q + "%", t);
    forall i: nat | i <= |t| ensures Matches(q + "%", t[i..]) <==> FitsAt(q, t, i) {
      FixedPrefix(q, t[i..]);
      assert FitsAt(q, t[i..], 0) <==> FitsAt(q, t, i);
    }
  }

  lemma LiteralIsPrefix(q: string, t: string)
    requires Literal(q)
    ensures Matches(q + "%", t) <==> q <= t
  {
    FixedPrefix(q, t);
    assert forall k | 0 <= k < |q| :: q[k] in q;
  }

  lemma LiteralFinds(q: string, t: string)
    requires Literal(q)
    ensures Matches(Anywhere(q), t) <==> Contains(t, q)
  {
    assert Anywhere(q) == "%" + (q + "%");
    PercentSkips(q + "%", t);
    forall i | 0 <= i <= |t| ensures Matches(q + "%", t[i..]) <==> q <= t[i..] {
      LiteralIsPrefix(q, t[i..]);
    }
  }

  /** A text the pattern of `q` matches, spelled without using any wildcard as itself. */
  function Decoy(q: string): (t: string)
    ensures |t| <= |q|
  {
    if q == "" then ""
    else if q[0] == '%' then Decoy(q[1..])
    else if q[0] == '_' then "x" + Decoy(q[1..])
    else if q[0] == '\\' then if |q| == 1 then "%" else [q[1]] + Decoy(q[2..])
    else [q[0]] + Decoy(q[1..])
  }

  /** A case folding: it neither makes nor loses a wildcard and leaves wildcards alone. */
  ghost predicate SafeFold(fold: char -> char) {
    forall c :: (Special(fold(c)) <==> Special(c)) && (Special(c) ==> fold(c) == c)
  }

  function Fold(fold: char -> char, s: string): string { Map(s, fold) }

  lemma FoldHead(fold: char -> char, s: string)
    requires s != ""
    ensures Fold(fold, s)[0] == fold(s[0]) && Fold(fold, s)[1..] == Fold(fold, s[1..])
    ensures |s| >= 2 ==> Fold(fold, s)[2..] == Fold(fold, s[2..])
  {
  }

  lemma {:induction false} DecoyMatches(fold: char -> char, q: string)
    requires SafeFold(fold)
    ensures Matches(Fold(fold, q) + "%", Fold(fold, Decoy(q)))
  {
    if q == "" {
      assert Fold(fold, q) + "%" == "%" && Fold(fold, Decoy(q)) == "";
    } else {
      var p, t := Fold(fold, q) + "%", Fold(fold, Decoy(q));
      FoldHead(fold, q);
      if Decoy(q) != "" { FoldHead(fold, Decoy(q)); }
      if q[0] == '\\' && |q| == 1 {
        assert p[1] == '%' && p[2..] == "" && t == "%";
      } else if q[0] == '\\' {
        DecoyMatches(fold, q[2..]);
        assert p[2..] == Fold(fold, q[2..]) + "%" && Decoy(q)[1..] == Decoy(q[2..]);
      } else {
        DecoyMatches(fold, q[1..]);
        assert p[1..] == Fold(fold, q[1..]) + "%";
        if q[0] != '%' { assert Decoy(q)[1..] == Decoy(q[1..]); }
      }
    }
  }

  lemma {:induction false} DecoyDiffers(fold: char -> char, q: string)
    requires SafeFold(fold) && !Literal(q)
    ensures Fold(fold, Decoy(q)) != Fold(fold, q)
  {
    if q[0] == '%' || q[0] == '\\' {
      if q == "\\" { assert Fold(fold, Decoy(q))[0] == '%' && Fold(fold, q)[0] == '\\'; }
    } else if q[0] == '_' {
      assert Decoy(q)[0] == 'x' && Special(Fold(fold, q)[0]) && !Special(Fold(fold, Decoy(q))[0]);
    } else {
      assert !Literal(q[1..]);
      DecoyDiffers(fold, q[1..]);
      assert Decoy(q)[1..] == Decoy(q[1..]);
      FoldHead(fold, q);
      FoldHead(fold, Decoy(q));
    }
  }

  lemma FoldedPattern(fold: char -> char, q: string)
    requires SafeFold(fold)
    ensures Fold(fold, Anywhere(q)) == Anywhere(Fold(fold, q))
    ensures Literal(Fold(fold, q)) <==> Literal(q)
  {
    var f := Fold(fold, q);
    forall i | 0 <= i < |q| ensures Special(f[i]) <==> Special(q[i]) {}
    if c :| c in q && Special(c) {
      var i :| 0 <= i < |q| && q[i] == c;
      assert f[i] in f;
    }
  }

  /** ILIKE of the search pattern against a text: both sides folded, then LIKE. */
  predicate SearchMatches(fold: char -> char, q: string, t: string) { Matches(Fold(fold, Anywhere(q)), Fold(fold, t)) }

  /** One text, when the search text is free of `%`, `_` and backslash. */
  lemma LiteralSearchContains(fold: char -> char, q: string, t: string)
    requires SafeFold(fold) && Literal(q)
    ensures SearchMatches(fold, q, t) <==> Contains(Fold(fold, t), Fold(fold, q))
  {
    FoldedPattern(fold, q);
    LiteralFinds(Fold(fold, q), Fold(fold, t));
  }

  /** `q` fits `t` from position `i` on, up to case: a `_` against any one character, anything else against itself. */
  ghost predicate FoundAt(fold: char -> char, q: string, t: string, i: nat) {
    i + |q| <= |t| && forall k | 0 <= k < |q| :: q[k] == '_' || fold(q[k]) == fold(t[i + k])
  }

  /** One text, when the search text has no `%` and no backslash: `_` stands for exactly one character. */
  lemma FixedSearchFits(fold: char -> char, q: string, t: string)
    requires SafeFold(fold) && Fixed(q)
    ensures SearchMatches(fold, q, t) <==> exists i: nat :: FoundAt(fold, q, t, i)
  {
    var f, u := Fold(fold, q), Fold(fold, t);
    FoldedPattern(fold, q);
    assert Fixed(f) by {
      forall k | 0 <= k < |q| ensures f[k] != '%' && f[k] != '\\' { assert q[k] in q; }
    }
    FixedFinds(f, u);
    forall i: nat ensures FitsAt(f, u, i) <==> FoundAt(fold, q, t, i) {
      assert forall k | 0 <= k < |q| :: f[k] == fold(q[k]) && (f[k] == '_' <==> q[k] == '_');
    }
  }

  /** A text found although it does not contain the search text, whenever that has a wildcard or backslash. */
  lemma DecoyIsFound(fold: char -> char, q: string)
    requires SafeFold(fold) && !Literal(q)
    ensures SearchMatches(fold, q, Decoy(q)) && !Contains(Fold(fold, Decoy(q)), Fold(fold, q))
  {
    var t, f := Fold(fold, Decoy(q)), Fold(fold, q);
    FoldedPattern(fold, q);
    DecoyMatches(fold, q);
    DecoyDiffers(fold, q);
    assert Anywhere(f)[1..] == f + "%";
    forall i | 0 <= i <= |t| ensures !(f <= t[i..]) {
      if i == 0 { assert t[0..] == t; }
    }
  }

  /**
   Under any case folding the search is plain containment up to case, for every
   text, exactly when the search text has no `%`, `_` or backslash.
   */
  lemma SearchIsContainmentExactlyWhenLiteral(fold: char -> char, q: string)
    requires SafeFold(fold)
    ensures (forall t :: SearchMatches(fold, q, t) <==> Contains(Fold(fold, t), Fold(fold, q))) <==> Literal(q)
  {
    if Literal(q) {
      forall t ensures SearchMatches(fold, q, t) <==> Contains(Fold(fold, t), Fold(fold, q)) {
        LiteralSearchContains(fold, q, t);
      }
    } else {
      DecoyIsFound(fold, q);
    }
  }
}
