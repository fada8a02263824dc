/**
 * The strict e-mail check of inputexamples.py: the pattern
 *   ^[a-zA-Z0-9._%+-]+@[a-zA-Z0-9.-]+\.[a-zA-Z]{2,63}$
 * applied with Python's `re.match`, and the `/contact/email` handler that
 * re-renders the e-mail widget as valid or invalid.
 *
 * `InPattern` is the language of the pattern body, written as the regular
 * expression reads (local part, `@`, domain, `.`, top-level domain);
 * `RegexMatches` adds what `re.match` and `$` contribute. `Accepts` is a
 * direct check that finds the `@` and the last `.`; `AcceptsIffRegexMatches`
 * proves that it decides exactly the regular expression's language.
 */
module StrictEmail {
  import opened Wrappers

  predicate IsLetter(c: char)
  {
    'a' <= c <= 'z' || 'A' <= c <= 'Z'
  }

  predicate IsDigit(c: char)
  {
    '0' <= c <= '9'
  }

  /** The class `[a-zA-Z0-9._%+-]`. */
  predicate IsLocalChar(c: char)
  {
    IsLetter(c) || IsDigit(c) || c == '.' || c == '_' || c == '%' || c == '+' || c == '-'
  }

  /** The class `[a-zA-Z0-9.-]`. */
  predicate IsDomainChar(c: char)
  {
    IsLetter(c) || IsDigit(c) || c == '.' || c == '-'
  }

  /** `[a-zA-Z0-9._%+-]+` */
  predicate IsLocalPart(s: string)
  {
    |s| >= 1 && forall i :: 0 <= i < |s| ==> IsLocalChar(s[i])
  }

  /** `[a-zA-Z0-9.-]+` */
  predicate IsDomainPart(s: string)
  {
    |s| >= 1 && forall i :: 0 <= i < |s| ==> IsDomainChar(s[i])
  }

  /** `[a-zA-Z]{2,63}` */
  predicate IsTopLevel(s: string)
  {
    2 <= |s| <= 63 && forall i :: 0 <= i < |s| ==> IsLetter(s[i])
  }

  /** The strings the pattern between `^` and `$` matches in full. */
  ghost predicate InPattern(t: string)
  {
    exists local, domain, tld ::
      IsLocalPart(local) && IsDomainPart(domain) && IsTopLevel(tld) &&
      t == local + "@" + domain + "." + tld
  }

  /**
   * `re.match` anchors at the start; without MULTILINE, `$` matches at the
   * end of the string or just before a newline that ends it.
   */
  ghost predicate RegexMatches(s: string)
  {
    InPattern(s) || (|s| > 0 && s[|s| - 1] == '\n' && InPattern(s[..|s| - 1]))
  }

  /** The position of the first `c` in `s`, if any. */
  function FindFirst(s: string, c: char): (r: Option<nat>)
    ensures r.None? <==> c !in s
    ensures r.Some? ==> r.value < |s| && s[r.value] == c && c !in s[..r.value]
  {
    if s == [] then None
    else if s[0] == c then Some(0)
    else
      match FindFirst(s[1..], c)
      case None => None
      case Some(k) =>
        assert s[..k + 1] == [s[0]] + s[1..][..k];
        Some(k + 1)
  }

  /** The position of the last `c` in `s`, if any. */
  function FindLast(s: string, c: char): (r: Option<nat>)
    ensures r.None? <==> c !in s
    ensures r.Some? ==> r.value < |s| && s[r.value] == c && c !in s[r.value + 1..]
  {
    if s == [] then None
    else if s[|s| - 1] == c then Some(|s| - 1)
    else
      var r := FindLast(s[..|s| - 1], c);
      assert r.Some? ==> s[r.value + 1..] == s[..|s| - 1][r.value + 1..] + [s[|s| - 1]];
      assert s == s[..|s| - 1] + [s[|s| - 1]];
      r
  }

  /**
   * The address split at its first `@` and its last `.`: local part before
   * the `@`, domain between them, top-level domain after the `.`.
   */
  predicate HasAddressShape(t: string)
  {
    var at, dot := FindFirst(t, '@'), FindLast(t, '.');
    && at.Some? && dot.Some? && at.value < dot.value
    && IsLocalPart(t[..at.value])
    && IsDomainPart(t[at.value + 1..dot.value])
    && IsTopLevel(t[dot.value + 1..])
  }

  /** Drops one final newline, the only one `$` lets through. */
  function WithoutFinalNewline(s: string): (t: string)
    ensures s == t || s == t + "\n"
    ensures s == t + "\n" <==> |s| > 0 && s[|s| - 1] == '\n'
  {
    if |s| > 0 && s[|s| - 1] == '\n' then s[..|s| - 1] else s
  }

  /** `re.match(strict_email, s)` is truthy. */
  predicate Accepts(s: string)
  {
    HasAddressShape(WithoutFinalNewline(s))
  }

  /** The address shape decides exactly the pattern's language. */
  lemma ShapeIffPattern(t: string)
    ensures HasAddressShape(t) <==> InPattern(t)
  {
    if HasAddressShape(t) {
      ShapeInPattern(t);
    }
    if InPattern(t) {
      var local, domain, tld :| IsLocalPart(local) && IsDomainPart(domain) && IsTopLevel(tld) &&
                                 t == local + "@" + domain + "." + tld;
      PatternHasShape(t, local, domain, tld);
    }
  }

  lemma ShapeInPattern(t: string)
    requires HasAddressShape(t)
    ensures InPattern(t)
  {
    var at, dot := FindFirst(t, '@').value, FindLast(t, '.').value;
    var local, domain, tld := t[..at], t[at + 1..dot], t[dot + 1..];
    assert t == local + "@" + domain + "." + tld;
  }

  lemma PatternHasShape(t: string, local: string, domain: string, tld: string)
    requires IsLocalPart(local) && IsDomainPart(domain) && IsTopLevel(tld)
    requires t == local + "@" + domain + "." + tld
    ensures HasAddressShape(t)
  {
    PatternSplit(t, local, domain, tld);
  }

  /** A `c` at `k` with none before it is the first `c`. */
  lemma FirstOccurrence(s: string, c: char, k: nat)
    requires k < |s| && s[k] == c && c !in s[..k]
    ensures FindFirst(s, c) == Some(k)
  {
  }

  /** A `c` at `k` with none after it is the last `c`. */
  lemma LastOccurrence(s: string, c: char, k: nat)
    requires k < |s| && s[k] == c && c !in s[k + 1..]
    ensures FindLast(s, c) == Some(k)
  {
  }

  /**
   * In a string of the pattern's language, the `@` is the first `@` and the
   * `.` before the top-level domain is the last `.`; so the three parts are
   * fixed by the string.
   */
  lemma PatternSplit(t: string, local: string, domain: string, tld: string)
    requires IsLocalPart(local) && IsDomainPart(domain) && IsTopLevel(tld)
    requires t == local + "@" + domain + "." + tld
    ensures FindFirst(t, '@') == Some(|local|)
    ensures FindLast(t, '.') == Some(|local| + 1 + |domain|)
    ensures t[..|local|] == local && t[|local| + 1..|local| + 1 + |domain|] == domain
    ensures t[|local| + 2 + |domain|..] == tld
  {
    assert '@' !in local by {
      forall i | 0 <= i < |local| ensures local[i] != '@' { assert IsLocalChar(local[i]); }
    }
    assert '.' !in tld by {
      forall i | 0 <= i < |tld| ensures tld[i] != '.' { assert IsLetter(tld[i]); }
    }
    Parts(local, domain, tld);
    Separators(local, domain, tld);
  }

  /** The three parts of `local + "@" + domain + "." + tld`. */
  lemma Parts(local: string, domain: string, tld: string)
    ensures var t := local + "@" + domain + "." + tld;
      && t[..|local|] == local && t[|local| + 1..|local| + 1 + |domain|] == domain
      && t[|local| + 2 + |domain|..] == tld
  {
    var t := local + "@" + domain + "." + tld;
    var at, dot := |local|, |local| + 1 + |domain|;
    var prefix := local + "@" + domain;
    Around(prefix, '.', tld);
    Around(local, '@', domain);
    assert t[..at] == t[..dot][..at];
    assert t[at + 1..dot] == t[..dot][at + 1..];
  }

  /**
   * The first `@` of `local + "@" + domain + "." + tld` when the local part
   * has none, and its last `.` when the top-level domain has none.
   */
  lemma Separators(local: string, domain: string, tld: string)
    ensures var t := local + "@" + domain + "." + tld;
      && ('@' !in local ==> FindFirst(t, '@') == Some(|local|))
      && ('.' !in tld ==> FindLast(t, '.') == Some(|local| + 1 + |domain|))
  {
    var t := local + "@" + domain + "." + tld;
    if '@' !in local {
      assert t == local + ['@'] + (domain + "." + tld);
      FirstAt(local, '@', domain + "." + tld);
    }
    if '.' !in tld {
      LastAt(local + "@" + domain, '.', tld);
    }
  }

  /** In `a + [c] + b` with no `c` in `a`, the first `c` is at `|a|`. */
  lemma FirstAt(a: string, c: char, b: string)
    requires c !in a
    ensures FindFirst(a + [c] + b, c) == Some(|a|)
  {
    Around(a, c, b);
    FirstOccurrence(a + [c] + b, c, |a|);
  }

  /** In `a + [c] + b` with no `c` in `b`, the last `c` is at `|a|`. */
  lemma LastAt(a: string, c: char, b: string)
    requires c !in b
    ensures FindLast(a + [c] + b, c) == Some(|a|)
  {
    Around(a, c, b);
    LastOccurrence(a + [c] + b, c, |a|);
  }

  /** The parts of `a + [c] + b`. */
  lemma Around(a: string, c: char, b: string)
    ensures (a + [c] + b)[..|a|] == a && (a + [c] + b)[|a|] == c && (a + [c] + b)[|a| + 1..] == b
  {
  }

  /** A split of a string into local part, domain and top-level domain is unique. */
  lemma PatternSplitUnique(t: string, l1: string, d1: string, t1: string, l2: string, d2: string, t2: string)
    requires IsLocalPart(l1) && IsDomainPart(d1) && IsTopLevel(t1) && t == l1 + "@" + d1 + "." + t1
    requires IsLocalPart(l2) && IsDomainPart(d2) && IsTopLevel(t2) && t == l2 + "@" + d2 + "." + t2
    ensures l1 == l2 && d1 == d2 && t1 == t2
  {
    PatternSplit(t, l1, d1, t1);
    PatternSplit(t, l2, d2, t2);
  }

  /** The top-level domain of an accepted address is what follows its last `.`. */
  lemma TopLevelAfterLastDot(t: string)
    requires InPattern(t)
    ensures FindLast(t, '.').Some?
    ensures IsTopLevel(t[FindLast(t, '.').value + 1..])
    ensures FindFirst(t, '@').Some? && FindFirst(t, '@').value < FindLast(t, '.').value
  {
    ShapeIffPattern(t);
  }

  /** No character of the pattern is a newline. */
  lemma NoNewlineInPattern(t: string)
    requires InPattern(t)
    ensures forall i :: 0 <= i < |t| ==> t[i] != '\n'
  {
    var local, domain, tld :| IsLocalPart(local) && IsDomainPart(domain) && IsTopLevel(tld) &&
                               t == local + "@" + domain + "." + tld;
    forall i | 0 <= i < |t| ensures t[i] != '\n' {
      if i < |local| {
        assert t[i] == local[i] && IsLocalChar(local[i]);
      } else if |local| + 1 <= i < |local| + 1 + |domain| {
        assert t[i] == domain[i - |local| - 1] && IsDomainChar(domain[i - |local| - 1]);
      } else if i > |local| + 1 + |domain| {
        assert t[i] == tld[i - |local| - 2 - |domain|] && IsLetter(tld[i - |local| - 2 - |domain|]);
      }
    }
  }

  /** The check decides exactly what `re.match(strict_email, s)` matches. */
  lemma AcceptsIffRegexMatches(s: string)
    ensures Accepts(s) <==> RegexMatches(s)
  {
    var t := WithoutFinalNewline(s);
    ShapeIffPattern(t);
    if |s| > 0 && s[|s| - 1] == '\n' && InPattern(s) {
      NoNewlineInPattern(s);
    }
  }

  /** Every accepted string holds exactly one `@`: neither character class admits it. */
  lemma ExactlyOneAt(s: string)
    requires Accepts(s)
    ensures multiset(s)['@'] == 1
  {
    var t := WithoutFinalNewline(s);
    ShapeIffPattern(t);
    var local, domain, tld :| IsLocalPart(local) && IsDomainPart(domain) && IsTopLevel(tld) &&
                               t == local + "@" + domain + "." + tld;
    assert '@' !in local by {
      forall i | 0 <= i < |local| ensures local[i] != '@' { assert IsLocalChar(local[i]); }
    }
    assert '@' !in domain by {
      forall i | 0 <= i < |domain| ensures domain[i] != '@' { assert IsDomainChar(domain[i]); }
    }
    assert '@' !in tld by {
      forall i | 0 <= i < |tld| ensures tld[i] != '@' { assert IsLetter(tld[i]); }
    }
    assert multiset(t) == multiset(local) + multiset{'@'} + multiset(domain) + multiset{'.'} + multiset(tld);
    if s != t {
      assert multiset(s) == multiset(t) + multiset{'\n'};
    }
  }

  /** A single trailing newline is let through by `$`: it is accepted exactly when the rest is. */
  lemma FinalNewlineAccepted(t: string)
    ensures Accepts(t + "\n") <==> InPattern(t)
  {
    assert (t + "\n")[..|t|] == t;
    ShapeIffPattern(t);
  }

  /** An accepted string ends with a letter of the top-level domain or with the one newline `$` allows. */
  lemma AcceptedEnding(s: string)
    requires Accepts(s)
    ensures |s| > 0 && (IsLetter(s[|s| - 1]) || s[|s| - 1] == '\n')
  {
    var t := WithoutFinalNewline(s);
    ShapeIffPattern(t);
    var local, domain, tld :| IsLocalPart(local) && IsDomainPart(domain) && IsTopLevel(tld) &&
                               t == local + "@" + domain + "." + tld;
    assert t[|t| - 1] == tld[|tld| - 1];
  }

  /** A second trailing newline is rejected. */
  lemma TwoFinalNewlinesRejected(t: string)
    ensures !Accepts(t + "\n\n")
  {
    var s := t + "\n\n";
    assert WithoutFinalNewline(s) == t + "\n";
    if Accepts(s) {
      ShapeIffPattern(t + "\n");
      NoNewlineInPattern(t + "\n");
    }
  }

  lemma AcceptedExample()
    ensures RegexMatches("a@b.co")
  {
    assert IsLocalPart("a") && IsDomainPart("b") && IsTopLevel("co");
    assert "a@b.co" == "a" + "@" + "b" + "." + "co";
  }

  /** Every string of the pattern's language holds an `@`. */
  lemma AtInPattern(t: string)
    requires InPattern(t)
    ensures '@' in t
  {
    var local, domain, tld :| IsLocalPart(local) && IsDomainPart(domain) && IsTopLevel(tld) &&
                               t == local + "@" + domain + "." + tld;
    assert t[|local|] == '@';
  }

  /** Without an `@` nothing is matched. */
  lemma AtRequired(s: string)
    requires '@' !in s
    ensures !RegexMatches(s)
  {
    if |s| > 0 {
      var t := s[..|s| - 1];
      assert '@' !in t by {
        assert forall i :: 0 <= i < |t| ==> t[i] == s[i];
      }
      if InPattern(t) {
        AtInPattern(t);
      }
    }
    if InPattern(s) {
      AtInPattern(s);
    }
  }

  /** "not-an-email" has no `@`, so it is rejected. */
  lemma RejectedExample()
    ensures !RegexMatches("not-an-email")
  {
    AtRequired("not-an-email");
  }

  /** The widget `/contact/email` sends back (inputexamples.py:56-71). */
  datatype EmailField = EmailField(
    value: string,          // the `value` of the e-mail input
    ariaInvalid: string,    // its `aria_invalid` attribute
    cls: string,            // the class of the enclosing Div
    alert: Option<string>)  // the `Small` error message, if any

  /**
   * The `/contact/email` POST handler. It keeps no state: the widget is a
   * function of the submitted string alone.
   */
  function ContactEmail(email: string): (f: EmailField)
    ensures f.value == email
    ensures RegexMatches(email) ==> f.ariaInvalid == "false" && f.cls == "success" && f.alert == None
    ensures !RegexMatches(email) ==> f.ariaInvalid == "true" && f.cls == "error" && f.alert == Some("Error :(")
  {
    AcceptsIffRegexMatches(email);
    if Accepts(email) then
      EmailField(email, "false", "success", None)
    else
      EmailField(email, "true", "error", Some("Error :("))
  }
}
