/**
 * `Formatter::format_text`: four whole-string rewrites of a post's text, applied in a fixed
 * order. Each regular expression is written as a left-to-right scanner that performs
 * leftmost, greedy, non-overlapping replacement, as `Regex::replace_all` does.
 */
module Formatter {
  import opened Sequences
  import opened Decimal

  // ---------------------------------------------------------------------------
  // Character classes and runs
  // ---------------------------------------------------------------------------

  /** `[a-zA-Z0-9_]`. */
  predicate IsWordChar(c: char) {
    ('a' <= c <= 'z') || ('A' <= c <= 'Z') || ('0' <= c <= '9') || c == '_'
  }

  /** `[「」『』（）【】:：｜\|]`: 「」『』【】 are U+300C..U+3011 and （） are U+FF08..U+FF09. */
  predicate IsMark(c: char) {
    || ('\U{300C}' <= c <= '\U{3011}')
    || ('\U{FF08}' <= c <= '\U{FF09}')
    || c == '\U{FF1A}' || c == '\U{FF5C}' || c == ':' || c == '|'
  }

  /** Length of the longest prefix of `s` whose characters all satisfy `p`. */
  function Span(s: string, p: char -> bool): (n: nat)
    ensures n <= |s|
    decreases |s|
  {
    if |s| == 0 || !p(s[0]) then 0 else 1 + Span(s[1..], p)
  }

  /** The span is a run of the class, and the run is maximal. */
  lemma {:induction false} SpanFacts(s: string, p: char -> bool)
    ensures forall i :: 0 <= i < Span(s, p) ==> p(s[i])
    ensures Span(s, p) < |s| ==> !p(s[Span(s, p)])
    decreases |s|
  {
    if |s| > 0 && p(s[0]) {
      SpanFacts(s[1..], p);
      forall i | 0 < i < Span(s, p) ensures p(s[i]) {
        assert s[i] == s[1..][i - 1];
      }
    }
  }

  /** A run followed by a character outside the class (or by nothing) is the whole span. */
  lemma {:induction false} SpanOfRun(w: string, rest: string, p: char -> bool)
    requires forall i :: 0 <= i < |w| ==> p(w[i])
    requires |rest| == 0 || !p(rest[0])
    ensures Span(w + rest, p) == |w|
    decreases |w|
  {
    if |w| > 0 {
      assert (w + rest)[1..] == w[1..] + rest;
      SpanOfRun(w[1..], rest, p);
    } else {
      assert w + rest == rest;
    }
  }

  /** A character absent from a sequence is absent from its tail. */
  lemma NotInTail(s: string, c: char)
    requires |s| > 0 && c !in s
    ensures c !in s[1..]
  {
    forall i | 0 <= i < |s[1..]| ensures s[1..][i] != c {
      assert s[1..][i] == s[i + 1];
    }
  }

  /** Splitting off the first character of the left operand of two concatenations. */
  lemma ConsConcat(p: string, t: string, x: string)
    requires |p| > 0
    ensures p + t == [p[0]] + (p[1..] + t) && p + x == [p[0]] + (p[1..] + x)
  {
  }

  // ---------------------------------------------------------------------------
  // Rule 1: `text.replace("\n", "\n  ")`
  // ---------------------------------------------------------------------------

  function Indent(s: string): (r: string)
    decreases |s|
  {
    if |s| == 0 then []
    else (if s[0] == '\n' then "\n  " else [s[0]]) + Indent(s[1..])
  }

  /** Every newline gains two characters; nothing else changes length. */
  lemma {:induction false} IndentLength(s: string)
    ensures |Indent(s)| == |s| + 2 * Count(s, '\n')
    decreases |s|
  {
    if |s| > 0 {
      IndentLength(s[1..]);
    }
  }

  /** Rule 1 keeps the number of newlines. */
  lemma {:induction false} IndentKeepsNewlines(s: string)
    ensures Count(Indent(s), '\n') == Count(s, '\n')
    decreases |s|
  {
    if |s| > 0 {
      IndentKeepsNewlines(s[1..]);
      var head := if s[0] == '\n' then "\n  " else [s[0]];
      CountConcat(head, Indent(s[1..]), '\n');
      assert Count(head, '\n') == if s[0] == '\n' then 1 else 0 by {
        if s[0] == '\n' {
          assert head[1..] == "  " && head[1..][1..] == " " && head[1..][1..][1..] == [];
          assert Count(" ", '\n') == 0;
          assert Count("  ", '\n') == 0;
        } else {
          assert head[1..] == [];
        }
      }
    }
  }

  lemma {:induction false} CountConcat<T>(a: seq<T>, b: seq<T>, x: T)
    ensures Count(a + b, x) == Count(a, x) + Count(b, x)
    decreases |a|
  {
    if |a| == 0 {
      assert a + b == b;
    } else {
      assert (a + b)[1..] == a[1..] + b;
      CountConcat(a[1..], b, x);
    }
  }

  /** Deletes the two spaces after every newline: the inverse of rule 1. */
  function Unindent(t: string): (r: string)
    decreases |t|
  {
    if |t| == 0 then []
    else if t[0] == '\n' && |t| >= 3 && t[1] == ' ' && t[2] == ' ' then "\n" + Unindent(t[3..])
    else [t[0]] + Unindent(t[1..])
  }

  lemma {:induction false} UnindentOfIndent(s: string)
    ensures Unindent(Indent(s)) == s
    decreases |s|
  {
    if |s| > 0 {
      UnindentOfIndent(s[1..]);
      var t := Indent(s);
      if s[0] == '\n' {
        assert t[3..] == Indent(s[1..]);
      } else {
        assert t[1..] == Indent(s[1..]);
      }
      assert s == [s[0]] + s[1..];
    }
  }

  lemma {:induction false} IndentIdentity(s: string)
    requires '\n' !in s
    ensures Indent(s) == s
    decreases |s|
  {
    if |s| > 0 {
      assert '\n' !in s[1..] by {
        forall i | 0 <= i < |s[1..]| ensures s[1..][i] != '\n' {
          assert s[1..][i] == s[i + 1];
        }
      }
      IndentIdentity(s[1..]);
      assert s == [s[0]] + s[1..];
    }
  }

  lemma {:induction false} IndentInserts(s: string)
    ensures IsSubsequence(s, Indent(s))
    decreases |s|
  {
    if |s| > 0 {
      IndentInserts(s[1..]);
      var head := if s[0] == '\n' then "\n  " else [s[0]];
      assert IsSubsequence([s[0]], head) by {
        assert head[1..] == head[1..][..];
      }
      SubsequenceConcat([s[0]], head, s[1..], Indent(s[1..]));
      assert s == [s[0]] + s[1..];
    }
  }

  /** Rule 1 is not idempotent: a newline gains two more spaces each time. */
  lemma IndentNotIdempotent(s: string)
    requires '\n' in s
    ensures Indent(Indent(s)) != Indent(s)
  {
    NewlineCounted(s);
    IndentLength(s);
    IndentLength(Indent(s));
    IndentKeepsNewlines(s);
  }

  lemma {:induction false} NewlineCounted(s: string)
    requires '\n' in s
    ensures Count(s, '\n') > 0
    decreases |s|
  {
    if s[0] != '\n' {
      assert '\n' in s[1..] by {
        var i :| 0 <= i < |s| && s[i] == '\n';
        assert s[1..][i - 1] == '\n';
      }
      NewlineCounted(s[1..]);
    }
  }

  // ---------------------------------------------------------------------------
  // One scanner step
  // ---------------------------------------------------------------------------

  /** What one step of a left-to-right scanner emits and how many input characters it consumes. */
  datatype Step = Step(out: string, used: nat)

  /** A step that keeps what it consumed, followed by a rest that keeps the remainder, keeps the whole text. */
  lemma ScanInserts(s: string, used: nat, out: string, rest: string)
    requires used <= |s| && IsSubsequence(s[..used], out) && IsSubsequence(s[used..], rest)
    ensures IsSubsequence(s, out + rest)
  {
    SubsequenceConcat(s[..used], out, s[used..], rest);
    assert s == s[..used] + s[used..];
  }

  // ---------------------------------------------------------------------------
  // Rule 2: `@([a-zA-Z0-9_]+)` -> `[[@$1]]`
  // ---------------------------------------------------------------------------

  /** At the start of `s`: `@` and the maximal word run after it become a link; anything else is copied. */
  function AccountStep(s: string): (st: Step)
    requires |s| > 0
    ensures 1 <= st.used <= |s|
  {
    var n := Span(s[1..], IsWordChar);
    if s[0] == '@' && n > 0 then Step("[[@" + s[1..1 + n] + "]]", 1 + n) else Step([s[0]], 1)
  }

  function Account(s: string): (r: string)
    decreases |s|
  {
    if |s| == 0 then []
    else
      var st := AccountStep(s);
      st.out + Account(s[st.used..])
  }

  /** A maximal run of word characters after `@` is wrapped in a link. */
  lemma AccountHandle(w: string, rest: string)
    requires |w| > 0 && forall i :: 0 <= i < |w| ==> IsWordChar(w[i])
    requires |rest| == 0 || !IsWordChar(rest[0])
    ensures Account("@" + w + rest) == "[[@" + w + "]]" + Account(rest)
  {
    var s := "@" + w + rest;
    assert s[1..] == w + rest;
    SpanOfRun(w, rest, IsWordChar);
    assert s[1..1 + |w|] == w;
    assert AccountStep(s) == Step("[[@" + w + "]]", 1 + |w|);
    assert s[1 + |w|..] == rest;
  }

  /** Any other character, including an `@` without a word character after it, is copied. */
  lemma AccountOther(c: char, rest: string)
    requires c != '@' || |rest| == 0 || !IsWordChar(rest[0])
    ensures Account([c] + rest) == [c] + Account(rest)
  {
    var s := [c] + rest;
    assert s[1..] == rest;
    assert AccountStep(s) == Step([c], 1);
  }

  lemma {:induction false} AccountInserts(s: string)
    ensures IsSubsequence(s, Account(s))
    decreases |s|
  {
    if |s| > 0 {
      var st := AccountStep(s);
      AccountInserts(s[st.used..]);
      AccountStepInserts(s);
      ScanInserts(s, st.used, st.out, Account(s[st.used..]));
    }
  }

  /** One step of rule 2 keeps what it consumed, in order. */
  lemma AccountStepInserts(s: string)
    requires |s| > 0
    ensures IsSubsequence(s[..AccountStep(s).used], AccountStep(s).out)
  {
    var st := AccountStep(s);
    var done := s[..st.used];
    if st.used > 1 {
      var w := s[1..st.used];
      assert done == "@" + w;
      assert IsSubsequence("@" + w, "@" + w + "]]") by {
        SubsequenceRefl("@" + w);
        SubsequenceConcat("@" + w, "@" + w, [], "]]");
        assert ("@" + w) + [] == "@" + w;
      }
      SubsequenceInsert("@" + w, "@" + w + "]]", "[[");
      assert "[[" + ("@" + w + "]]") == st.out;
    } else {
      assert done == st.out;
      SubsequenceRefl(done);
    }
  }

  lemma {:induction false} AccountIdentity(s: string)
    requires '@' !in s
    ensures Account(s) == s
    decreases |s|
  {
    if |s| > 0 {
      assert AccountStep(s) == Step([s[0]], 1);
      NotInTail(s, '@');
      AccountIdentity(s[1..]);
      assert s == [s[0]] + s[1..];
    }
  }

  /** `s` has an `@` directly followed by a word character, so rule 2 applies somewhere. */
  predicate HasHandle(s: string) {
    exists i :: 0 <= i < |s| - 1 && s[i] == '@' && IsWordChar(s[i + 1])
  }

  /** A handle in either part is a handle of the concatenation. */
  lemma HasHandleConcat(a: string, b: string)
    ensures HasHandle(a) || HasHandle(b) ==> HasHandle(a + b)
  {
    if HasHandle(a) {
      var i :| 0 <= i < |a| - 1 && a[i] == '@' && IsWordChar(a[i + 1]);
      assert (a + b)[i] == a[i] && (a + b)[i + 1] == a[i + 1];
    } else if HasHandle(b) {
      var i :| 0 <= i < |b| - 1 && b[i] == '@' && IsWordChar(b[i + 1]);
      assert (a + b)[|a| + i] == b[i] && (a + b)[|a| + i + 1] == b[i + 1];
    }
  }

  /** If no handle starts at the front, any handle lies in the tail. */
  lemma HasHandleTail(s: string)
    requires HasHandle(s) && |s| > 0
    requires !(s[0] == '@' && |s| > 1 && IsWordChar(s[1]))
    ensures HasHandle(s[1..])
  {
    var i :| 0 <= i < |s| - 1 && s[i] == '@' && IsWordChar(s[i + 1]);
    assert s[1..][i - 1] == s[i] && s[1..][i] == s[i + 1];
  }

  /** One step of rule 2: a link adds four characters and contains the handle; a copy adds none. */
  lemma AccountStepGrows(s: string)
    requires |s| > 0
    ensures |AccountStep(s).out| >= AccountStep(s).used
    ensures AccountStep(s).used > 1 ==> |AccountStep(s).out| == AccountStep(s).used + 4 && HasHandle(AccountStep(s).out)
    ensures AccountStep(s).used == 1 ==> !(s[0] == '@' && |s| > 1 && IsWordChar(s[1]))
  {
    var st := AccountStep(s);
    if st.used > 1 {
      assert st.out[2] == '@' && st.out[3] == s[1];
    }
  }

  /** Rule 2 never shortens the text, lengthens it by at least four where it applies, and leaves a handle in place. */
  lemma {:induction false} AccountGrows(s: string)
    ensures |Account(s)| >= |s|
    ensures HasHandle(s) ==> |Account(s)| >= |s| + 4 && HasHandle(Account(s))
    decreases |s|
  {
    if |s| > 0 {
      var st := AccountStep(s);
      var rest := s[st.used..];
      AccountGrows(rest);
      AccountStepGrows(s);
      var r := Account(s);
      assert r == st.out + Account(rest);
      HasHandleConcat(st.out, Account(rest));
      if st.used == 1 && HasHandle(s) {
        HasHandleTail(s);
      }
    }
  }

  /** Rule 2 is not idempotent: the linked handle is linked again. */
  lemma AccountNotIdempotent(s: string)
    requires HasHandle(s)
    ensures Account(Account(s)) != Account(s)
  {
    AccountGrows(s);
    AccountGrows(Account(s));
  }

  // ---------------------------------------------------------------------------
  // Rule 3: `#(\d+)([「」『』（）【】:：｜\|]+)` -> `#$1 $2`
  // ---------------------------------------------------------------------------

  /**
   * At the start of `s`: `#`, one or more digits and the maximal run of marks after them get
   * a space between digits and marks; anything else is copied.
   */
  function NumberStep(s: string): (st: Step)
    requires |s| > 0
    ensures 1 <= st.used <= |s|
  {
    var d := Span(s[1..], IsDigit);
    var m := Span(s[1 + d..], IsMark);
    if s[0] == '#' && d > 0 && m > 0 then Step("#" + s[1..1 + d] + " " + s[1 + d..1 + d + m], 1 + d + m)
    else Step([s[0]], 1)
  }

  function HashNumber(s: string): (r: string)
    decreases |s|
  {
    if |s| == 0 then []
    else
      var st := NumberStep(s);
      st.out + HashNumber(s[st.used..])
  }

  /** A character other than `#` is copied by rule 3. */
  lemma NumberStepCopies(s: string)
    requires |s| > 0 && s[0] != '#'
    ensures NumberStep(s) == Step([s[0]], 1)
  {
  }

  /** Where the pieces of `#digits marks rest` sit. */
  lemma MatchPieces(digits: string, marks: string, rest: string)
    ensures var s := "#" + digits + marks + rest;
      && s[1..] == digits + (marks + rest)
      && s[1..1 + |digits|] == digits
      && s[1 + |digits|..] == marks + rest
      && s[1 + |digits|..1 + |digits| + |marks|] == marks
      && s[1 + |digits| + |marks|..] == rest
  {
  }

  /** The step at a match, in terms of the two spans. */
  lemma NumberStepMatch(s: string, d: nat, m: nat)
    requires |s| > 0 && s[0] == '#'
    requires d == Span(s[1..], IsDigit) && d > 0
    requires m == Span(s[1 + d..], IsMark) && m > 0
    ensures NumberStep(s) == Step("#" + s[1..1 + d] + " " + s[1 + d..1 + d + m], 1 + d + m)
  {
  }

  lemma HashNumberUnfold(s: string)
    requires |s| > 0
    ensures HashNumber(s) == NumberStep(s).out + HashNumber(s[NumberStep(s).used..])
  {
  }

  /** One space goes between the digits after `#` and the maximal run of marks after them. */
  lemma HashNumberMatch(digits: string, marks: string, rest: string)
    requires |digits| > 0 && AllDigits(digits)
    requires |marks| > 0 && forall i :: 0 <= i < |marks| ==> IsMark(marks[i])
    requires |rest| == 0 || !IsMark(rest[0])
    ensures HashNumber("#" + digits + marks + rest) == "#" + digits + " " + marks + HashNumber(rest)
  {
    var s := "#" + digits + marks + rest;
    MatchPieces(digits, marks, rest);
    assert !IsDigit((marks + rest)[0]);
    SpanOfRun(digits, marks + rest, IsDigit);
    SpanOfRun(marks, rest, IsMark);
    NumberStepMatch(s, |digits|, |marks|);
    HashNumberUnfold(s);
  }

  /** A character other than `#` in front is copied. */
  lemma HashNumberCopy(c: char, t: string)
    requires c != '#'
    ensures HashNumber([c] + t) == [c] + HashNumber(t)
  {
    var s := [c] + t;
    assert s[1..] == t;
    NumberStepCopies(s);
    HashNumberUnfold(s);
  }

  /** Text without `#` passes through rule 3 unchanged, whatever follows it. */
  lemma {:induction false} HashNumberPassThrough(p: string, t: string)
    requires '#' !in p
    ensures HashNumber(p + t) == p + HashNumber(t)
    decreases |p|
  {
    if |p| == 0 {
      assert p + t == t;
    } else {
      NotInTail(p, '#');
      HashNumberPassThrough(p[1..], t);
      HashNumberCopy(p[0], p[1..] + t);
      ConsConcat(p, t, HashNumber(t));
    }
  }

  /** Rule 3 never changes the first character. */
  lemma HashNumberFirst(t: string)
    requires |t| > 0
    ensures |HashNumber(t)| > 0 && HashNumber(t)[0] == t[0]
  {
    var st := NumberStep(t);
    assert st.out[0] == t[0];
    assert HashNumber(t) == st.out + HashNumber(t[st.used..]);
  }

  lemma HashNumberIdentity(s: string)
    requires '#' !in s
    ensures HashNumber(s) == s
  {
    HashNumberPassThrough(s, []);
    assert s + [] == s;
  }

  lemma {:induction false} HashNumberInserts(s: string)
    ensures IsSubsequence(s, HashNumber(s))
    decreases |s|
  {
    if |s| > 0 {
      var st := NumberStep(s);
      HashNumberInserts(s[st.used..]);
      NumberStepInserts(s);
      HashNumberUnfold(s);
      ScanInserts(s, st.used, st.out, HashNumber(s[st.used..]));
    }
  }

  /** One step of rule 3 keeps what it consumed, in order. */
  lemma NumberStepInserts(s: string)
    requires |s| > 0
    ensures IsSubsequence(s[..NumberStep(s).used], NumberStep(s).out)
  {
    var st := NumberStep(s);
    var done := s[..st.used];
    if st.used > 1 {
      var d := Span(s[1..], IsDigit);
      var head := "#" + s[1..1 + d];
      var marks := s[1 + d..st.used];
      assert done == head + marks;
      assert st.out == head + (" " + marks);
      SubsequenceRefl(head);
      SubsequenceRefl(marks);
      SubsequenceInsert(marks, marks, " ");
      SubsequenceConcat(head, head, marks, " " + marks);
    } else {
      assert done == st.out;
      SubsequenceRefl(done);
    }
  }

  /** No match starts at `s`: the first character is copied. */
  lemma NumberStepNoMatch(s: string, d: nat)
    requires |s| > 0 && d == Span(s[1..], IsDigit)
    requires s[0] != '#' || d == 0 || Span(s[1 + d..], IsMark) == 0
    ensures NumberStep(s) == Step([s[0]], 1)
  {
  }

  /** Where no match starts, rule 3 copies the first character and goes on with the rest. */
  lemma HashNumberNoMatch(s: string, d: nat)
    requires |s| > 0 && d == Span(s[1..], IsDigit)
    requires s[0] != '#' || d == 0 || Span(s[1 + d..], IsMark) == 0
    ensures HashNumber(s) == [s[0]] + HashNumber(s[1..])
  {
    NumberStepNoMatch(s, d);
    HashNumberUnfold(s);
  }

  /** No `#` among digits, a space and marks. */
  lemma NoHashInNumberTail(digits: string, marks: string)
    requires AllDigits(digits)
    requires forall i :: 0 <= i < |marks| ==> IsMark(marks[i])
    ensures '#' !in digits + " " + marks
  {
    var tail := digits + " " + marks;
    forall i | 0 <= i < |tail| ensures tail[i] != '#' {
      if i < |digits| {
        assert IsDigit(digits[i]);
      } else if i > |digits| {
        assert IsMark(marks[i - |digits| - 1]);
      }
    }
  }

  lemma NumberOutputPieces(digits: string, marks: string, x: string)
    ensures var r := "#" + digits + " " + marks + x;
      && r[1..] == digits + (" " + marks + x)
      && r[1..] == (digits + " " + marks) + x
      && r[1 + |digits|..] == " " + marks + x
  {
  }

  /** Output of a match is left alone by a second pass. */
  lemma HashNumberMatchStable(digits: string, marks: string, x: string)
    requires |digits| > 0 && AllDigits(digits)
    requires forall i :: 0 <= i < |marks| ==> IsMark(marks[i])
    requires HashNumber(x) == x
    ensures HashNumber("#" + digits + " " + marks + x) == "#" + digits + " " + marks + x
  {
    var r := "#" + digits + " " + marks + x;
    NumberOutputPieces(digits, marks, x);
    SpanOfRun(digits, " " + marks + x, IsDigit);
    NumberStepNoMatch(r, |digits|);
    HashNumberUnfold(r);
    NoHashInNumberTail(digits, marks);
    HashNumberPassThrough(digits + " " + marks, x);
  }

  /** The digit run at the front of `t` passes through unchanged and stays a maximal run. */
  lemma HashNumberDigitRun(t: string)
    ensures var d := Span(t, IsDigit);
      && HashNumber(t) == t[..d] + HashNumber(t[d..])
      && Span(HashNumber(t), IsDigit) == d
  {
    var d := Span(t, IsDigit);
    SpanFacts(t, IsDigit);
    var digits := t[..d];
    var t' := t[d..];
    assert t == digits + t';
    assert '#' !in digits by {
      forall i | 0 <= i < |digits| ensures digits[i] != '#' {
        assert IsDigit(t[i]);
      }
    }
    HashNumberPassThrough(digits, t');
    if |t'| > 0 {
      HashNumberFirst(t');
      assert t'[0] == t[d];
    }
    SpanOfRun(digits, HashNumber(t'), IsDigit);
  }

  /** A `#` that starts no match still starts none once the text after it has been rewritten. */
  lemma HashNumberCopyStable(t: string)
    requires HashNumber(HashNumber(t)) == HashNumber(t)
    requires var d := Span(t, IsDigit); d == 0 || Span(t[d..], IsMark) == 0
    ensures HashNumber("#" + HashNumber(t)) == "#" + HashNumber(t)
  {
    var d := Span(t, IsDigit);
    HashNumberDigitRun(t);
    var y := HashNumber(t);
    var r := "#" + y;
    assert r[1..] == y;
    if d > 0 {
      assert r[1 + d..] == HashNumber(t[d..]);
      if |t[d..]| > 0 {
        HashNumberFirst(t[d..]);
      }

    }
    NumberStepNoMatch(r, d);
    HashNumberUnfold(r);
  }

  /** Rule 3 is idempotent: the inserted space separates the digits from the marks. */
  lemma {:induction false} HashNumberIdempotent(s: string)
    ensures HashNumber(HashNumber(s)) == HashNumber(s)
    decreases |s|
  {
    if |s| > 0 {
      var st := NumberStep(s);
      HashNumberIdempotent(s[st.used..]);
      HashNumberUnfold(s);
      var x := HashNumber(s[st.used..]);
      var d := Span(s[1..], IsDigit);
      if st.used > 1 {
        var m := Span(s[1 + d..], IsMark);
        NumberStepMatch(s, d, m);
        SpanFacts(s[1..], IsDigit);
        SpanFacts(s[1 + d..], IsMark);
        var digits := s[1..1 + d];
        var marks := s[1 + d..1 + d + m];
        assert AllDigits(digits) by {
          forall i | 0 <= i < |digits| ensures IsDigit(digits[i]) {
            assert digits[i] == s[1..][i];
          }
        }
        assert forall i :: 0 <= i < |marks| ==> IsMark(marks[i]) by {
          forall i | 0 <= i < |marks| ensures IsMark(marks[i]) {
            assert marks[i] == s[1 + d..][i];
          }
        }
        HashNumberMatchStable(digits, marks, x);
      } else if s[0] != '#' {
        HashNumberPassThrough([s[0]], x);
      } else {
        HashNumberCopyStable(s[1..]);
      }
    }
  }

  // ---------------------------------------------------------------------------
  // Rule 4: `#(\d+)http` -> `#$1 http`
  // ---------------------------------------------------------------------------

  /** The text starts with `http`. */
  predicate IsHttp(t: string) {
    |t| >= 4 && t[0] == 'h' && t[1] == 't' && t[2] == 't' && t[3] == 'p'
  }

  /** At the start of `s`: `#`, one or more digits and `http` get a space before `http`; anything else is copied. */
  function UrlStep(s: string): (st: Step)
    requires |s| > 0
    ensures 1 <= st.used <= |s|
  {
    var d := Span(s[1..], IsDigit);
    if s[0] == '#' && d > 0 && IsHttp(s[1 + d..]) then Step("#" + s[1..1 + d] + " http", 1 + d + 4)
    else Step([s[0]], 1)
  }

  function HashUrl(s: string): (r: string)
    decreases |s|
  {
    if |s| == 0 then []
    else
      var st := UrlStep(s);
      st.out + HashUrl(s[st.used..])
  }

  /** A character other than `#` is copied by rule 4. */
  lemma UrlStepCopies(s: string)
    requires |s| > 0 && s[0] != '#'
    ensures UrlStep(s) == Step([s[0]], 1)
  {
  }

  /** A space goes between the digits after `#` and a following `http`. */
  lemma HashUrlMatch(digits: string, rest: string)
    requires |digits| > 0 && AllDigits(digits)
    ensures HashUrl("#" + digits + "http" + rest) == "#" + digits + " http" + HashUrl(rest)
  {
    var s := "#" + digits + "http" + rest;
    var d := |digits|;
    assert s[1..] == digits + ("http" + rest);
    SpanOfRun(digits, "http" + rest, IsDigit);
    assert s[1 + d..] == "http" + rest;
    assert s[1..1 + d] == digits;
    assert UrlStep(s) == Step("#" + digits + " http", 1 + d + 4);
    assert s[1 + d + 4..] == rest;
  }

  /** A character other than `#` in front is copied. */
  lemma HashUrlCopy(c: char, t: string)
    requires c != '#'
    ensures HashUrl([c] + t) == [c] + HashUrl(t)
  {
    var s := [c] + t;
    assert s[1..] == t;
    UrlStepCopies(s);
    HashUrlUnfold(s);
  }

  /** Text without `#` passes through rule 4 unchanged, whatever follows it. */
  lemma {:induction false} HashUrlPassThrough(p: string, t: string)
    requires '#' !in p
    ensures HashUrl(p + t) == p + HashUrl(t)
    decreases |p|
  {
    if |p| == 0 {
      assert p + t == t;
    } else {
      NotInTail(p, '#');
      HashUrlPassThrough(p[1..], t);
      HashUrlCopy(p[0], p[1..] + t);
      ConsConcat(p, t, HashUrl(t));
    }
  }

  /** Rule 4 never changes the first character. */
  lemma HashUrlFirst(t: string)
    requires |t| > 0
    ensures |HashUrl(t)| > 0 && HashUrl(t)[0] == t[0]
  {
    var st := UrlStep(t);
    assert st.out[0] == t[0];
    assert HashUrl(t) == st.out + HashUrl(t[st.used..]);
  }

  predicate NotHash(c: char) { c != '#' }

  /** Rule 4 leaves the first four characters alone, so its output starts with `http` exactly when its input does. */
  lemma HashUrlKeepsHttp(t: string)
    ensures IsHttp(HashUrl(t)) <==> IsHttp(t)
  {
    var j := Span(t, NotHash);
    SpanFacts(t, NotHash);
    var p := t[..j];
    assert t == p + t[j..];
    assert '#' !in p by {
      forall i | 0 <= i < |p| ensures p[i] != '#' {
        assert NotHash(t[i]);
      }
    }
    HashUrlPassThrough(p, t[j..]);
    if j < |t| {
      HashUrlFirst(t[j..]);
      assert t[j] == '#' && HashUrl(t)[j] == '#';
    } else {
      assert t[j..] == [];
    }
  }

  lemma HashUrlIdentity(s: string)
    requires '#' !in s
    ensures HashUrl(s) == s
  {
    HashUrlPassThrough(s, []);
    assert s + [] == s;
  }

  lemma {:induction false} HashUrlInserts(s: string)
    ensures IsSubsequence(s, HashUrl(s))
    decreases |s|
  {
    if |s| > 0 {
      var st := UrlStep(s);
      HashUrlInserts(s[st.used..]);
      UrlStepInserts(s);
      HashUrlUnfold(s);
      ScanInserts(s, st.used, st.out, HashUrl(s[st.used..]));
    }
  }

  /** One step of rule 4 keeps what it consumed, in order. */
  lemma UrlStepInserts(s: string)
    requires |s| > 0
    ensures IsSubsequence(s[..UrlStep(s).used], UrlStep(s).out)
  {
    var st := UrlStep(s);
    var done := s[..st.used];
    if st.used > 1 {
      var d := Span(s[1..], IsDigit);
      var head := "#" + s[1..1 + d];
      var http := s[1 + d..st.used];
      assert http == "http";
      assert done == head + http;
      assert st.out == head + (" " + http);
      SubsequenceRefl(head);
      SubsequenceRefl(http);
      SubsequenceInsert(http, http, " ");
      SubsequenceConcat(head, head, http, " " + http);
    } else {
      assert done == st.out;
      SubsequenceRefl(done);
    }
  }

  lemma UrlStepNoMatch(s: string, d: nat)
    requires |s| > 0 && d == Span(s[1..], IsDigit)
    requires s[0] != '#' || d == 0 || !IsHttp(s[1 + d..])
    ensures UrlStep(s) == Step([s[0]], 1)
  {
  }

  /** Where no match starts, rule 4 copies the first character and goes on with the rest. */
  lemma HashUrlNoMatch(s: string, d: nat)
    requires |s| > 0 && d == Span(s[1..], IsDigit)
    requires s[0] != '#' || d == 0 || !IsHttp(s[1 + d..])
    ensures HashUrl(s) == [s[0]] + HashUrl(s[1..])
  {
    UrlStepNoMatch(s, d);
    HashUrlUnfold(s);
  }

  lemma UrlStepMatch(s: string, d: nat)
    requires |s| > 0 && s[0] == '#'
    requires d == Span(s[1..], IsDigit) && d > 0 && IsHttp(s[1 + d..])
    ensures UrlStep(s) == Step("#" + s[1..1 + d] + " http", 1 + d + 4)
  {
  }

  lemma HashUrlUnfold(s: string)
    requires |s| > 0
    ensures HashUrl(s) == UrlStep(s).out + HashUrl(s[UrlStep(s).used..])
  {
  }

  /** No `#` among digits followed by ` http`. */
  lemma NoHashInUrlTail(digits: string)
    requires AllDigits(digits)
    ensures '#' !in digits + " http"
  {
    var tail := digits + " http";
    forall i | 0 <= i < |tail| ensures tail[i] != '#' {
      if i < |digits| {
        assert IsDigit(digits[i]);
      }
    }
  }

  lemma UrlOutputPieces(digits: string, x: string)
    ensures var r := "#" + digits + " http" + x;
      && r[1..] == digits + (" http" + x)
      && r[1..] == (digits + " http") + x
      && r[1 + |digits|..] == " http" + x
  {
  }

  /** Output of a match is left alone by a second pass. */
  lemma HashUrlMatchStable(digits: string, x: string)
    requires |digits| > 0 && AllDigits(digits)
    requires HashUrl(x) == x
    ensures HashUrl("#" + digits + " http" + x) == "#" + digits + " http" + x
  {
    var r := "#" + digits + " http" + x;
    UrlOutputPieces(digits, x);
    SpanOfRun(digits, " http" + x, IsDigit);
    UrlStepNoMatch(r, |digits|);
    HashUrlUnfold(r);
    NoHashInUrlTail(digits);
    HashUrlPassThrough(digits + " http", x);
  }

  /** The digit run at the front of `t` passes through unchanged and stays a maximal run. */
  lemma HashUrlDigitRun(t: string)
    ensures var d := Span(t, IsDigit);
      && HashUrl(t) == t[..d] + HashUrl(t[d..])
      && Span(HashUrl(t), IsDigit) == d
  {
    var d := Span(t, IsDigit);
    SpanFacts(t, IsDigit);
    var digits := t[..d];
    var t' := t[d..];
    assert t == digits + t';
    assert '#' !in digits by {
      forall i | 0 <= i < |digits| ensures digits[i] != '#' {
        assert IsDigit(t[i]);
      }
    }
    HashUrlPassThrough(digits, t');
    if |t'| > 0 {
      HashUrlFirst(t');
      assert t'[0] == t[d];
    }
    SpanOfRun(digits, HashUrl(t'), IsDigit);
  }

  /** A `#` that starts no match still starts none once the text after it has been rewritten. */
  lemma HashUrlCopyStable(t: string)
    requires HashUrl(HashUrl(t)) == HashUrl(t)
    requires var d := Span(t, IsDigit); d == 0 || !IsHttp(t[d..])
    ensures HashUrl("#" + HashUrl(t)) == "#" + HashUrl(t)
  {
    var d := Span(t, IsDigit);
    HashUrlDigitRun(t);
    var y := HashUrl(t);
    var r := "#" + y;
    assert r[1..] == y;
    if d > 0 {
      assert r[1 + d..] == HashUrl(t[d..]);
      if |t[d..]| > 0 {
        HashUrlFirst(t[d..]);
      }
      HashUrlKeepsHttp(t[d..]);
    }
    UrlStepNoMatch(r, d);
    HashUrlUnfold(r);
  }

  /** Rule 4 is idempotent: after the inserted space the digits are no longer followed by `http`. */
  lemma {:induction false} HashUrlIdempotent(s: string)
    ensures HashUrl(HashUrl(s)) == HashUrl(s)
    decreases |s|
  {
    if |s| > 0 {
      var st := UrlStep(s);
      HashUrlIdempotent(s[st.used..]);
      HashUrlUnfold(s);
      var x := HashUrl(s[st.used..]);
      var d := Span(s[1..], IsDigit);
      if st.used > 1 {
        UrlStepMatch(s, d);
        SpanFacts(s[1..], IsDigit);
        var digits := s[1..1 + d];
        assert AllDigits(digits) by {
          forall i | 0 <= i < |digits| ensures IsDigit(digits[i]) {
            assert digits[i] == s[1..][i];
          }
        }
        HashUrlMatchStable(digits, x);
      } else if s[0] != '#' {
        HashUrlPassThrough([s[0]], x);
      } else {
        HashUrlCopyStable(s[1..]);
      }
    }
  }

  // ---------------------------------------------------------------------------
  // The composition
  // ---------------------------------------------------------------------------

  /**
   * `format_text`: newline, account, hash-number and hash-url rules in this order. Every rule
   * only inserts characters, and text without newline, `@` or `#` is returned unchanged.
   */
  function FormatText(s: string): (r: string)
    ensures IsSubsequence(s, r)
    ensures '\n' !in s && '@' !in s && '#' !in s ==> r == s
  {
    var indented := Indent(s);
    var linked := Account(indented);
    var spaced := HashNumber(linked);
    IndentInserts(s);
    AccountInserts(indented);
    HashNumberInserts(linked);
    HashUrlInserts(spaced);
    SubsequenceTrans(s, indented, linked);
    SubsequenceTrans(s, linked, spaced);
    SubsequenceTrans(s, spaced, HashUrl(spaced));
    PlainTextUnchanged(s);
    HashUrl(spaced)
  }

  lemma PlainTextUnchanged(s: string)
    ensures '\n' !in s && '@' !in s && '#' !in s ==> HashUrl(HashNumber(Account(Indent(s)))) == s
  {
    if '\n' !in s && '@' !in s && '#' !in s {
      IndentIdentity(s);
      AccountIdentity(s);
      HashNumberIdentity(s);
      HashUrlIdentity(s);
    }
  }
}
