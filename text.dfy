/** Small optional/result wrappers shared by the other modules. */
module Wrappers {
  datatype Option<+T> = None | Some(value: T)

  datatype Result<+T, +E> = Ok(value: T) | Err(error: E)
}

/** Sequence identities, stated once so that callers need not re-derive them by extensionality. */
module Seqs {
  lemma ConcatTail<T>(x: seq<T>, y: seq<T>)
    requires x != []
    ensures (x + y)[0] == x[0] && (x + y)[1..] == x[1..] + y
  {
  }

  lemma ConcatAssoc<T>(x: seq<T>, y: seq<T>, z: seq<T>)
    ensures x + (y + z) == (x + y) + z
  {
  }
}

/**
 * String helpers with JavaScript semantics: `String.prototype.split("/")`,
 * `Array.prototype.join("/")`, `String.prototype.replace` with a string
 * pattern, `startsWith`, and the decimal rendering of a non-negative number
 * inside a template literal.
 */
module Text {
  import opened Wrappers

  const Sep: char := '/'

  /** `s.split("/")`: never empty, and "" splits to [""]. */
  function Split(s: string): (r: seq<string>)
    ensures |r| >= 1
    ensures forall i :: 0 <= i < |r| ==> Sep !in r[i]
  {
    if s == [] then [""]
    else if s[0] == Sep then [""] + Split(s[1..])
    else
      var rest := Split(s[1..]);
      [[s[0]] + rest[0]] + rest[1..]
  }

  /** `segs.join("/")`: [] joins to "". */
  function Join(segs: seq<string>): string
  {
    if |segs| == 0 then ""
    else if |segs| == 1 then segs[0]
    else segs[0] + [Sep] + Join(segs[1..])
  }

  /** `s.split("/").slice(-1)[0]`: the last segment, i.e. the name of a path. */
  function LastSegment(s: string): (r: string)
    ensures Sep !in r
    ensures |r| <= |s| && s[|s| - |r|..] == r
    ensures r == s || (|r| < |s| && s[|s| - |r| - 1] == Sep)
  {
    var segs := Split(s);
    JoinSplit(s);
    JoinSuffix(segs);
    segs[|segs| - 1]
  }

  /** `name.startsWith(".")` */
  predicate IsHidden(name: string)
  {
    |name| > 0 && name[0] == '.'
  }

  /** Joining the segments of a split gives back the string. */
  lemma {:induction false} JoinSplit(s: string)
    ensures Join(Split(s)) == s
  {
    if s == [] {
    } else if s[0] == Sep {
      JoinSplit(s[1..]);
      assert Split(s) == [""] + Split(s[1..]);
    } else {
      var rest := Split(s[1..]);
      JoinSplit(s[1..]);
      if |rest| > 1 {
        assert Join(rest) == rest[0] + [Sep] + Join(rest[1..]);
      }
    }
  }

  /**
   * The last segment of a join is a suffix of it: the whole join when there
   * is one segment, and otherwise the part after a separator.
   */
  lemma {:induction false} JoinSuffix(segs: seq<string>)
    requires |segs| >= 1
    ensures |segs[|segs| - 1]| <= |Join(segs)|
    ensures Join(segs)[|Join(segs)| - |segs[|segs| - 1]|..] == segs[|segs| - 1]
    ensures |segs| == 1 ==> Join(segs) == segs[0]
    ensures |segs| > 1 ==> |segs[|segs| - 1]| < |Join(segs)| && Join(segs)[|Join(segs)| - |segs[|segs| - 1]| - 1] == Sep
  {
    if |segs| > 1 {
      JoinSuffix(segs[1..]);
      var tail := Join(segs[1..]);
      assert Join(segs) == segs[0] + [Sep] + tail;
      if |segs| == 2 {
        assert tail == segs[1];
      }
    }
  }

  /** Appending one segment appends "/" and the segment. */
  lemma {:induction false} JoinSnoc(segs: seq<string>, x: string)
    requires |segs| >= 1
    ensures Join(segs + [x]) == Join(segs) + [Sep] + x
  {
    if |segs| == 1 {
      assert segs + [x] == [segs[0], x];
    } else {
      JoinSnoc(segs[1..], x);
      assert (segs + [x])[1..] == segs[1..] + [x];
    }
  }

  /** A prefix of k + 1 segments joins to the prefix of k segments, "/", and segment k. */
  lemma JoinPrefixStep(segs: seq<string>, k: nat)
    requires 1 <= k < |segs|
    ensures Join(segs[..k + 1]) == Join(segs[..k]) + [Sep] + segs[k]
  {
    assert segs[..k + 1] == segs[..k] + [segs[k]];
    JoinSnoc(segs[..k], segs[k]);
  }

  /** Joining two or more segments always yields a separator. */
  lemma {:induction false} JoinHasSep(segs: seq<string>)
    requires |segs| >= 2
    ensures Sep in Join(segs)
  {
    assert Join(segs)[|segs[0]|] == Sep;
  }

  /** Splitting distributes over a separator. */
  lemma {:induction false} SplitAround(a: string, b: string)
    ensures Split(a + [Sep] + b) == Split(a) + Split(b)
  {
    if a == [] {
      assert a + [Sep] + b == [Sep] + b;
      assert ([Sep] + b)[1..] == b;
    } else {
      assert (a + [Sep] + b)[0] == a[0];
      assert (a + [Sep] + b)[1..] == a[1..] + [Sep] + b;
      SplitAround(a[1..], b);
    }
  }

  /** A string without separators splits to itself. */
  lemma {:induction false} SplitNoSep(b: string)
    requires Sep !in b
    ensures Split(b) == [b]
  {
    if b != [] {
      SplitNoSep(b[1..]);
      assert [b[0]] + b[1..] == b;
    }
  }

  /** Splitting a join of separator-free segments gives the segments back. */
  lemma {:induction false} SplitJoin(segs: seq<string>)
    requires |segs| >= 1
    requires forall i :: 0 <= i < |segs| ==> Sep !in segs[i]
    ensures Split(Join(segs)) == segs
  {
    if |segs| == 1 {
      SplitNoSep(segs[0]);
    } else {
      SplitNoSep(segs[0]);
      SplitAround(segs[0], Join(segs[1..]));
      SplitJoin(segs[1..]);
    }
  }

  /** The name of `parent + "/" + seg` is `seg`. */
  lemma LastSegmentOfChild(parent: string, seg: string)
    requires Sep !in seg
    ensures LastSegment(parent + [Sep] + seg) == seg
  {
    SplitAround(parent, seg);
    SplitNoSep(seg);
  }

  /** `s` holds `pat` at index `i`. */
  predicate OccursAt(s: string, pat: string, i: nat)
  {
    i + |pat| <= |s| && s[i..i + |pat|] == pat
  }

  /** `s.indexOf(pat, from)`: the first occurrence at or after `from`, if any. */
  function IndexOfFrom(s: string, pat: string, from: nat): (r: Option<nat>)
    requires from <= |s|
    ensures r.Some? ==> from <= r.value && OccursAt(s, pat, r.value)
    ensures r.Some? ==> forall j :: from <= j < r.value ==> !OccursAt(s, pat, j)
    ensures r.None? ==> forall j :: from <= j <= |s| ==> !OccursAt(s, pat, j)
    decreases |s| - from
  {
    if OccursAt(s, pat, from) then Some(from)
    else if from == |s| then None
    else IndexOfFrom(s, pat, from + 1)
  }

  /** `i` is the first index at which `s` holds `pat`. */
  predicate IsFirstOccurrence(s: string, pat: string, i: nat)
  {
    OccursAt(s, pat, i) && forall j :: 0 <= j < i ==> !OccursAt(s, pat, j)
  }

  /**
   * `s.replace(pat, rep)` with a string pattern: only the first occurrence is
   * replaced, and a string without an occurrence is returned unchanged.
   */
  function ReplaceFirst(s: string, pat: string, rep: string): (r: string)
    ensures (forall j :: 0 <= j <= |s| ==> !OccursAt(s, pat, j)) ==> r == s
    ensures forall i: nat :: IsFirstOccurrence(s, pat, i) ==> r == s[..i] + rep + s[i + |pat|..]
  {
    match IndexOfFrom(s, pat, 0)
    case None => s
    case Some(k) =>
      assert forall i: nat :: IsFirstOccurrence(s, pat, i) ==> i == k by {
        forall i: nat | IsFirstOccurrence(s, pat, i) ensures i == k {
          assert k < i ==> !OccursAt(s, pat, k);
        }
      }
      s[..k] + rep + s[k + |pat|..]
  }

  /** A string that starts with `pat` has it replaced at the front. */
  lemma ReplaceFirstAtFront(s: string, pat: string, rep: string)
    requires pat <= s
    ensures ReplaceFirst(s, pat, rep) == rep + s[|pat|..]
  {
    assert s[0..|pat|] == pat;
    assert IsFirstOccurrence(s, pat, 0);
    assert s[..0] + rep + s[|pat|..] == rep + s[|pat|..];
  }

  /** The decimal digit for `d`. */
  function DigitChar(d: nat): (c: char)
    requires d < 10
    ensures '0' <= c <= '9' && (c as int) - ('0' as int) == d
  {
    (('0' as int) + d) as char
  }

  predicate IsDigits(s: string)
  {
    forall i :: 0 <= i < |s| ==> '0' <= s[i] <= '9'
  }

  /** `${n}` for a non-negative integer: its decimal digits, without leading zeros. */
  function NatToString(n: nat): (s: string)
    ensures |s| >= 1 && IsDigits(s)
    ensures |s| > 1 ==> s[0] != '0'
  {
    if n < 10 then [DigitChar(n)]
    else NatToString(n / 10) + [DigitChar(n % 10)]
  }

  /** The value of a string of decimal digits. */
  function ParseDigits(s: string): nat
    requires IsDigits(s)
  {
    if s == [] then 0
    else ParseDigits(s[..|s| - 1]) * 10 + ((s[|s| - 1] as int) - ('0' as int))
  }

  /** Rendering a count and reading it back gives the count. */
  lemma {:induction false} ParseNatToString(n: nat)
    ensures ParseDigits(NatToString(n)) == n
  {
    if n >= 10 {
      var s := NatToString(n);
      assert s[..|s| - 1] == NatToString(n / 10);
      ParseNatToString(n / 10);
    }
  }

  /** The number between `prefix` and `suffix` in `s`. */
  function ReadCount(s: string, prefix: string, suffix: string): Option<nat>
  {
    if |s| < |prefix| + |suffix| || s[..|prefix|] != prefix || s[|s| - |suffix|..] != suffix then None
    else
      var digits := s[|prefix|..|s| - |suffix|];
      if IsDigits(digits) then Some(ParseDigits(digits)) else None
  }

  /** A number rendered between `prefix` and `suffix` reads back as itself. */
  lemma ReadCountSentence(prefix: string, n: nat, suffix: string)
    ensures ReadCount(prefix + NatToString(n) + suffix, prefix, suffix) == Some(n)
  {
    var s := prefix + NatToString(n) + suffix;
    assert s[..|prefix|] == prefix;
    assert s[|s| - |suffix|..] == suffix;
    assert s[|prefix|..|s| - |suffix|] == NatToString(n);
    ParseNatToString(n);
  }
}
