/**
 * The format-string handling of `string()` for a localized key with
 * formatting: the fold that rewrites the five numeric conversion tokens to the
 * object placeholder `%@`, and the substitution of the argument descriptions
 * for those placeholders.
 */
module Format {

  /** The conversion tokens rewritten to `%@`, in the order the fold visits them. */
  const ArgPatterns: seq<string> := ["%lld", "%ld", "%d", "%lf", "%f"]

  /** The object placeholder every recognized token becomes. */
  const Placeholder: string := "%@"

  /** `s` begins with `p`. */
  predicate StartsWith(s: string, p: string)
  {
    |p| <= |s| && s[..|p|] == p
  }

  /** `p` occurs somewhere in `s`. */
  predicate Contains(s: string, p: string)
    decreases |s|
  {
    StartsWith(s, p) || (|s| > 0 && Contains(s[1..], p))
  }

  /**
   * The shape shared by the five conversion tokens: a `%` followed by at least
   * one character, none of which is `%` or `@`.
   */
  predicate IsToken(p: string)
  {
    |p| >= 2 && p[0] == '%' && '%' !in p[1..] && '@' !in p
  }

  /**
   * `s.replacingOccurrences(of: p, with: rep)`: every occurrence of `p`, found
   * left to right without overlap, is replaced by `rep`.
   */
  function ReplaceAll(s: string, p: string, rep: string): string
    requires |p| > 0
    decreases |s|
  {
    if StartsWith(s, p) then rep + ReplaceAll(s[|p|..], p, rep)
    else if s == [] then []
    else [s[0]] + ReplaceAll(s[1..], p, rep)
  }

  /** The `reduce` over `patterns`: each pattern in turn is replaced by `%@`. */
  function RewriteTokens(s: string, patterns: seq<string>): string
    requires forall p <- patterns :: IsToken(p)
    decreases |patterns|
  {
    if patterns == [] then s
    else
      assert patterns[0] in patterns && IsToken(patterns[0]);
      RewriteTokens(ReplaceAll(s, patterns[0], Placeholder), patterns[1..])
  }

  /** The format string `string()` hands to the formatter. */
  function RewriteFormat(base: string): string
  {
    RewriteTokens(base, ArgPatterns)
  }

  /**
   * `String(format:arguments:)` restricted to `%@`: each placeholder, left to
   * right, takes the next argument; once the arguments run out the rest of the
   * format is copied as it is, and surplus arguments are ignored.
   */
  function Substitute(format: string, args: seq<string>): string
    decreases |format|
  {
    if args != [] && StartsWith(format, Placeholder) then args[0] + Substitute(format[2..], args[1..])
    else if format == [] then []
    else [format[0]] + Substitute(format[1..], args)
  }

  /**
   * `segments[0] + values[0] + segments[1] + ... + segments[n]`: a text in which
   * the values stand between the segments, in order.
   */
  function Weave(segments: seq<string>, values: seq<string>): (r: string)
    requires |segments| == |values| + 1
    decreases |values|
  {
    if values == [] then segments[0]
    else segments[0] + values[0] + Weave(segments[1..], values[1..])
  }

  /** `n` placeholders. */
  function Placeholders(n: nat): (r: seq<string>)
    ensures |r| == n
    ensures forall i :: 0 <= i < n ==> r[i] == Placeholder
  {
    seq(n, _ => Placeholder)
  }

  // ---------------------------------------------------------------------------
  // Occurrences

  lemma StartsWithCons(c: char, x: string, w: string)
    ensures StartsWith([c] + x, w) <==> w == [] || (w[0] == c && StartsWith(x, w[1..]))
  {
    if w != [] && w[0] == c && StartsWith(x, w[1..]) {
      assert ([c] + x)[..|w|] == [c] + x[..|w| - 1];
      assert w == [c] + w[1..];
    }
    if w != [] && StartsWith([c] + x, w) {
      assert ([c] + x)[..|w|] == [c] + x[..|w| - 1];
      assert w[1..] == x[..|w| - 1];
    }
  }

  /** An occurrence in a suffix is an occurrence in the whole. */
  lemma {:induction false} ContainsSuffix(s: string, k: nat, p: string)
    requires k <= |s|
    requires Contains(s[k..], p)
    ensures Contains(s, p)
    decreases k
  {
    if k > 0 {
      assert s[k..] == s[1..][k - 1..];
      ContainsSuffix(s[1..], k - 1, p);
    }
  }

  /** A token cannot occur in a string without `%`. */
  lemma {:induction false} NoPercentNoToken(s: string, p: string)
    requires IsToken(p)
    requires '%' !in s
    ensures !Contains(s, p)
    decreases |s|
  {
    if |s| > 0 {
      assert !StartsWith(s, p) by { assert s[0] in s; }
      NoPercentNoToken(s[1..], p);
    }
  }

  /**
   * Replacing a token by `%@` leaves the leading `%`-free part of a string as
   * it is, so a `%`-free prefix is seen before exactly when it is seen after.
   */
  lemma {:induction false} ReplaceKeepsLead(t: string, q: string, w: string)
    requires IsToken(q)
    requires '%' !in w
    ensures StartsWith(ReplaceAll(t, q, Placeholder), w) <==> StartsWith(t, w)
    decreases |t|
  {
    var r := ReplaceAll(t, q, Placeholder);
    if StartsWith(t, q) {
      assert r == Placeholder + ReplaceAll(t[|q|..], q, Placeholder);
      assert r[0] == '%' && t[0] == '%';
      if w != [] {
        assert w[0] != '%' by { assert w[0] in w; }
      }
    } else if t == [] {
    } else {
      assert r == [t[0]] + ReplaceAll(t[1..], q, Placeholder);
      StartsWithCons(t[0], ReplaceAll(t[1..], q, Placeholder), w);
      assert t == [t[0]] + t[1..];
      StartsWithCons(t[0], t[1..], w);
      if w != [] {
        assert '%' !in w[1..] by {
          forall i | 0 <= i < |w[1..]| ensures w[1..][i] != '%' { assert w[1..][i] == w[i + 1]; }
        }
        ReplaceKeepsLead(t[1..], q, w[1..]);
      }
    }
  }

  /**
   * A string that starts with the placeholder contains a token only after the
   * placeholder.
   */
  lemma PlaceholderHidesToken(x: string, p: string)
    requires IsToken(p)
    requires !Contains(x, p)
    ensures !Contains(Placeholder + x, p)
  {
    var y := Placeholder + x;
    assert p[1] != '@' by { assert p[1] in p; }
    assert !StartsWith(y, p) by { assert y[1] == '@'; }
    assert y[1..] == ['@'] + x;
    assert !StartsWith(y[1..], p) by { assert y[1..][0] == '@'; }
    assert y[1..][1..] == x;
  }

  /** A string that starts with `%` followed by the rest of a token starts with that token. */
  lemma TokenTail(s: string, r: string, p: string)
    requires IsToken(p)
    requires s != [] && s[0] == '%'
    requires StartsWith(r, p[1..]) <==> StartsWith(s[1..], p[1..])
    ensures StartsWith([s[0]] + r, p) <==> StartsWith(s, p)
  {
    StartsWithCons(s[0], r, p);
    assert s == [s[0]] + s[1..];
    StartsWithCons(s[0], s[1..], p);
  }

  /** After replacement, the replaced token no longer occurs. */
  lemma {:induction false} ReplaceRemoves(s: string, p: string)
    requires IsToken(p)
    ensures !Contains(ReplaceAll(s, p, Placeholder), p)
    decreases |s|
  {
    var r := ReplaceAll(s, p, Placeholder);
    if StartsWith(s, p) {
      ReplaceRemoves(s[|p|..], p);
      PlaceholderHidesToken(ReplaceAll(s[|p|..], p, Placeholder), p);
    } else if s == [] {
    } else {
      var r' := ReplaceAll(s[1..], p, Placeholder);
      assert r == [s[0]] + r';
      ReplaceRemoves(s[1..], p);
      if s[0] == '%' {
        ReplaceKeepsLead(s[1..], p, p[1..]);
        TokenTail(s, r', p);
      } else {
        assert !StartsWith(r, p) by { assert r[0] != p[0]; }
      }
      assert r[1..] == r';
    }
  }

  /** Replacing one token by `%@` never creates an occurrence of another token. */
  lemma {:induction false} ReplaceKeepsAbsent(s: string, q: string, p: string)
    requires IsToken(q) && IsToken(p)
    requires !Contains(s, p)
    ensures !Contains(ReplaceAll(s, q, Placeholder), p)
    decreases |s|
  {
    var r := ReplaceAll(s, q, Placeholder);
    if StartsWith(s, q) {
      if Contains(s[|q|..], p) { ContainsSuffix(s, |q|, p); }
      ReplaceKeepsAbsent(s[|q|..], q, p);
      PlaceholderHidesToken(ReplaceAll(s[|q|..], q, Placeholder), p);
    } else if s == [] {
    } else {
      var r' := ReplaceAll(s[1..], q, Placeholder);
      assert r == [s[0]] + r';
      ReplaceKeepsAbsent(s[1..], q, p);
      if s[0] == '%' {
        ReplaceKeepsLead(s[1..], q, p[1..]);
        TokenTail(s, r', p);
      } else {
        assert !StartsWith(r, p) by { assert r[0] != p[0]; }
      }
      assert r[1..] == r';
    }
  }

  /** Replacing an absent pattern changes nothing. */
  lemma {:induction false} ReplaceAbsent(s: string, p: string, rep: string)
    requires |p| > 0
    requires !Contains(s, p)
    ensures ReplaceAll(s, p, rep) == s
    decreases |s|
  {
    if s != [] {
      ReplaceAbsent(s[1..], p, rep);
    }
  }

  /** A `%`-free stretch in front of the text is copied through replacement. */
  lemma {:induction false} ReplaceAfterPlain(a: string, y: string, p: string)
    requires IsToken(p)
    requires '%' !in a
    ensures ReplaceAll(a + y, p, Placeholder) == a + ReplaceAll(y, p, Placeholder)
    decreases |a|
  {
    if a != [] {
      assert (a + y)[0] == a[0] != p[0];
      assert (a + y)[1..] == a[1..] + y;
      ReplaceAfterPlain(a[1..], y, p);
      assert a == [a[0]] + a[1..];
    } else {
      assert a + y == y;
    }
  }

  // ---------------------------------------------------------------------------
  // The token-rewrite fold

  /** The fold keeps a token absent that was absent before it. */
  lemma {:induction false} RewriteKeepsAbsent(s: string, patterns: seq<string>, p: string)
    requires forall q <- patterns :: IsToken(q)
    requires IsToken(p)
    requires !Contains(s, p)
    ensures !Contains(RewriteTokens(s, patterns), p)
    decreases |patterns|
  {
    if patterns != [] {
      assert patterns[0] in patterns;
      ReplaceKeepsAbsent(s, patterns[0], p);
      RewriteKeepsAbsent(ReplaceAll(s, patterns[0], Placeholder), patterns[1..], p);
    }
  }

  /** No pattern the fold visits occurs in its result. */
  lemma {:induction false} RewriteRemovesAll(s: string, patterns: seq<string>)
    requires forall q <- patterns :: IsToken(q)
    ensures forall p <- patterns :: !Contains(RewriteTokens(s, patterns), p)
    decreases |patterns|
  {
    if patterns != [] {
      assert patterns[0] in patterns;
      var s' := ReplaceAll(s, patterns[0], Placeholder);
      ReplaceRemoves(s, patterns[0]);
      RewriteKeepsAbsent(s', patterns[1..], patterns[0]);
      RewriteRemovesAll(s', patterns[1..]);
    }
  }

  /** The fold leaves alone a string in which none of its patterns occurs. */
  lemma {:induction false} RewriteAbsent(s: string, patterns: seq<string>)
    requires forall q <- patterns :: IsToken(q)
    requires forall p <- patterns :: !Contains(s, p)
    ensures RewriteTokens(s, patterns) == s
    decreases |patterns|
  {
    if patterns != [] {
      assert patterns[0] in patterns;
      ReplaceAbsent(s, patterns[0], Placeholder);
      assert forall p <- patterns[1..] :: p in patterns;
      RewriteAbsent(s, patterns[1..]);
    }
  }

  /** A `%`-free stretch in front of the text is copied through the fold. */
  lemma {:induction false} RewriteAfterPlain(a: string, y: string, patterns: seq<string>)
    requires forall q <- patterns :: IsToken(q)
    requires '%' !in a
    ensures RewriteTokens(a + y, patterns) == a + RewriteTokens(y, patterns)
    decreases |patterns|
  {
    if patterns != [] {
      assert patterns[0] in patterns;
      ReplaceAfterPlain(a, y, patterns[0]);
      RewriteAfterPlain(a, ReplaceAll(y, patterns[0], Placeholder), patterns[1..]);
    }
  }

  lemma ArgPatternsAreTokens()
    ensures forall p <- ArgPatterns :: IsToken(p)
  {
  }

  /** None of the five conversion tokens survives the rewrite. */
  lemma RewriteFormatRemovesTokens(base: string)
    ensures forall p <- ArgPatterns :: !Contains(RewriteFormat(base), p)
  {
    ArgPatternsAreTokens();
    RewriteRemovesAll(base, ArgPatterns);
  }

  /** A format without `%` is not rewritten. */
  lemma RewriteFormatPlain(base: string)
    requires '%' !in base
    ensures RewriteFormat(base) == base
  {
    ArgPatternsAreTokens();
    forall p <- ArgPatterns ensures !Contains(base, p) {
      NoPercentNoToken(base, p);
    }
    RewriteAbsent(base, ArgPatterns);
  }

  /** Rewriting twice is rewriting once. */
  lemma RewriteFormatIdempotent(base: string)
    ensures RewriteFormat(RewriteFormat(base)) == RewriteFormat(base)
  {
    ArgPatternsAreTokens();
    RewriteRemovesAll(base, ArgPatterns);
    RewriteAbsent(RewriteFormat(base), ArgPatterns);
  }

  /**
   * The five conversion tokens are prefix-free: a text that begins with one of
   * them begins with no other.
   */
  lemma TokenHeadMatch(tok: string, b: string, p: string)
    requires tok in ArgPatterns && p in ArgPatterns
    ensures StartsWith(tok + b, p) <==> tok == p
  {
    var y := tok + b;
    if tok == p {
      assert y[..|p|] == tok;
    } else if p[1] != tok[1] {
      assert y[1] == tok[1];
      if |p| <= |y| { assert y[..|p|][1] == y[1]; }
    } else {
      assert |p| >= 3 && |tok| >= 3 && p[2] != tok[2];
      assert y[2] == tok[2];
      if |p| <= |y| { assert y[..|p|][2] == y[2]; }
    }
  }

  /**
   * A head that starts with the text's only `%` up to the tail and that the
   * pattern does not match is copied; replacement goes on in the tail.
   */
  lemma ReplaceHead(h: string, b: string, p: string)
    requires IsToken(p)
    requires h != [] && h[0] == '%' && '%' !in h[1..]
    requires !StartsWith(h + b, p)
    ensures ReplaceAll(h + b, p, Placeholder) == h + ReplaceAll(b, p, Placeholder)
  {
    assert (h + b)[1..] == h[1..] + b;
    ReplaceAfterPlain(h[1..], b, p);
    assert h == [h[0]] + h[1..];
  }

  /**
   * The fold rewrites a leading conversion token to `%@` exactly when the
   * token is among the patterns, and rewrites the rest of the text on its own:
   * no pattern match spans the token and what follows it.
   */
  lemma {:induction false} RewriteHead(h: string, b: string, patterns: seq<string>)
    requires h == Placeholder || h in ArgPatterns
    requires forall q <- patterns :: q in ArgPatterns && IsToken(q)
    ensures RewriteTokens(h + b, patterns) == (if h in patterns then Placeholder else h) + RewriteTokens(b, patterns)
    decreases |patterns|
  {
    ArgPatternsAreTokens();
    if patterns != [] {
      var p := patterns[0];
      assert p in patterns;
      assert forall q <- patterns[1..] :: q in patterns;
      assert IsToken(h) || h == Placeholder;
      assert '%' !in h[1..] by {
        if h == Placeholder { assert h[1..] == "@"; }
      }
      if h == p {
        assert StartsWith(h + b, p) && (h + b)[|p|..] == b;
        var b' := ReplaceAll(b, p, Placeholder);
        RewriteHead(Placeholder, b', patterns[1..]);
        assert Placeholder !in patterns[1..];
      } else {
        if h == Placeholder {
          assert p[1] != '@' by { assert p[1] in p; }
          assert (h + b)[1] == '@';
          if |p| <= |h + b| { assert (h + b)[..|p|][1] == '@'; }
        } else {
          TokenHeadMatch(h, b, p);
        }
        ReplaceHead(h, b, p);
        RewriteHead(h, ReplaceAll(b, p, Placeholder), patterns[1..]);
        assert h in patterns <==> h in patterns[1..];
      }
    }
  }

  /**
   * A format made of `%`-free segments with conversion tokens between them is
   * rewritten to the same segments with `%@` between them: every token, long
   * or short, becomes one placeholder.
   */
  lemma {:induction false} RewriteWoven(segments: seq<string>, tokens: seq<string>)
    requires |segments| == |tokens| + 1
    requires forall i :: 0 <= i < |segments| ==> '%' !in segments[i]
    requires forall i :: 0 <= i < |tokens| ==> tokens[i] in ArgPatterns
    ensures RewriteFormat(Weave(segments, tokens)) == Weave(segments, Placeholders(|tokens|))
    decreases |tokens|
  {
    ArgPatternsAreTokens();
    if tokens == [] {
      RewriteFormatPlain(segments[0]);
    } else {
      var rest := Weave(segments[1..], tokens[1..]);
      assert Weave(segments, tokens) == segments[0] + (tokens[0] + rest);
      RewriteAfterPlain(segments[0], tokens[0] + rest, ArgPatterns);
      RewriteHead(tokens[0], rest, ArgPatterns);
      RewriteWoven(segments[1..], tokens[1..]);
      var ph := Placeholders(|tokens|);
      assert ph[1..] == Placeholders(|tokens| - 1);
      assert Weave(segments, ph) == segments[0] + Placeholder + Weave(segments[1..], ph[1..]);
    }
  }

  // ---------------------------------------------------------------------------
  // Substitution

  /** With no arguments the format is returned as it is. */
  lemma {:induction false} SubstituteNoArgs(format: string)
    ensures Substitute(format, []) == format
    decreases |format|
  {
    if format != [] {
      SubstituteNoArgs(format[1..]);
    }
  }

  /** A format without `%` takes no argument. */
  lemma {:induction false} SubstitutePlain(format: string, args: seq<string>)
    requires '%' !in format
    ensures Substitute(format, args) == format
    decreases |format|
  {
    if format != [] {
      assert format[0] != '%';
      SubstitutePlain(format[1..], args);
    }
  }

  /**
   * The first placeholder after a `%`-free stretch takes the first argument,
   * and the rest of the format is substituted with the remaining arguments.
   */
  lemma {:induction false} SubstituteFirst(a: string, b: string, v: string, vs: seq<string>)
    requires '%' !in a
    ensures Substitute(a + Placeholder + b, [v] + vs) == a + v + Substitute(b, vs)
    decreases |a|
  {
    var f := a + Placeholder + b;
    if a == [] {
      assert f == Placeholder + b;
      assert StartsWith(f, Placeholder);
      assert f[2..] == b;
    } else {
      assert f[0] == a[0] != '%';
      assert f[1..] == a[1..] + Placeholder + b;
      SubstituteFirst(a[1..], b, v, vs);
      assert a == [a[0]] + a[1..];
    }
  }

  /**
   * Substitution fills the placeholders with the arguments, one for one and in
   * order.
   */
  lemma {:induction false} SubstituteInOrder(segments: seq<string>, args: seq<string>)
    requires |segments| == |args| + 1
    requires forall i :: 0 <= i < |segments| ==> '%' !in segments[i]
    ensures Substitute(Weave(segments, Placeholders(|args|)), args) == Weave(segments, args)
    decreases |args|
  {
    if args == [] {
      SubstitutePlain(segments[0], args);
    } else {
      var ph := Placeholders(|args|);
      assert ph[1..] == Placeholders(|args| - 1);
      var rest := Weave(segments[1..], ph[1..]);
      assert Weave(segments, ph) == segments[0] + Placeholder + rest;
      assert args == [args[0]] + args[1..];
      SubstituteFirst(segments[0], rest, args[0], args[1..]);
      SubstituteInOrder(segments[1..], args[1..]);
    }
  }
}
