/** Text primitives the concierge pipeline is built from, over `string` (= `seq<char>`):
    substring containment (`includes`), ASCII case folding (`toLowerCase`),
    splitting on one character (`split(' ')`), joining with a separator (`join`)
    and decimal rendering of natural numbers (`toString()` / template interpolation). */
module Text {

  // ---------------------------------------------------------------------------
  // Substring containment
  // ---------------------------------------------------------------------------

  /** `sub` occurs in `s` starting at position `i`. */
  predicate OccursAt(s: string, sub: string, i: int) {
    0 <= i && i + |sub| <= |s| && s[i..i + |sub|] == sub
  }

  /** `s.includes(sub)`: `sub` is a prefix of `s` or of one of its suffixes.
      The empty string is contained in every string. */
  predicate Contains(s: string, sub: string): (r: bool)
    ensures r ==> |sub| <= |s|
    ensures sub == [] ==> r
    decreases |s|
  {
    sub <= s || (|s| > 0 && Contains(s[1..], sub))
  }

  /** Containment means an occurrence at some position, and conversely. */
  lemma {:induction false} ContainsIffOccurs(s: string, sub: string)
    ensures Contains(s, sub) <==> exists i :: OccursAt(s, sub, i)
    decreases |s|
  {
    if Contains(s, sub) {
      if sub <= s {
        assert OccursAt(s, sub, 0);
      } else {
        ContainsIffOccurs(s[1..], sub);
        var j :| OccursAt(s[1..], sub, j);
        SliceOfSlice(s, 1, j, |sub|);
        assert OccursAt(s, sub, j + 1);
      }
    }
    if exists i :: OccursAt(s, sub, i) {
      var i :| OccursAt(s, sub, i);
      if i == 0 {
        assert sub <= s;
      } else {
        SliceOfSlice(s, 1, i - 1, |sub|);
        assert OccursAt(s[1..], sub, i - 1);
        ContainsIffOccurs(s[1..], sub);
      }
    }
  }

  /** A slice of a suffix is a slice of the whole. */
  lemma SliceOfSlice(s: string, a: nat, c: nat, n: nat)
    requires a + c + n <= |s|
    ensures s[a..][c..c + n] == s[a + c..a + c + n]
  {
  }

  /** A string placed anywhere inside another is contained in it. */
  lemma ContainsInside(p: string, sub: string, q: string)
    ensures Contains(p + sub + q, sub)
  {
    assert (p + sub + q)[|p|..|p| + |sub|] == sub;
    assert OccursAt(p + sub + q, sub, |p|);
    ContainsIffOccurs(p + sub + q, sub);
  }

  /** Every string contains itself. */
  lemma ContainsSelf(s: string)
    ensures Contains(s, s)
  {
  }

  /** Whatever contains `pre + sub + post` contains `sub`. */
  lemma ContainsPart(s: string, pre: string, sub: string, post: string)
    ensures Contains(s, pre + sub + post) ==> Contains(s, sub)
  {
    if Contains(s, pre + sub + post) {
      ContainsInside(pre, sub, post);
      ContainsTransitive(s, pre + sub + post, sub);
    }
  }

  /** A non-empty string is contained in no string shorter than itself; in particular
      not in the empty string. */
  lemma {:induction false} NotContainedInShorter(s: string, sub: string)
    requires |s| < |sub|
    ensures !Contains(s, sub)
  {
    ContainsIffOccurs(s, sub);
  }

  /** Containment is transitive: whatever occurs in a part of `a` occurs in `a`. */
  lemma ContainsTransitive(a: string, b: string, c: string)
    requires Contains(a, b) && Contains(b, c)
    ensures Contains(a, c)
  {
    ContainsIffOccurs(a, b);
    ContainsIffOccurs(b, c);
    var i :| OccursAt(a, b, i);
    var j :| OccursAt(b, c, j);
    forall k | 0 <= k < |c| ensures a[i + j + k] == c[k] {
      assert c[k] == b[j..j + |c|][k] == b[j + k];
      assert b[j + k] == a[i..i + |b|][j + k] == a[i + j + k];
    }
    assert a[i + j..i + j + |c|] == c;
    assert OccursAt(a, c, i + j);
    ContainsIffOccurs(a, c);
  }

  // ---------------------------------------------------------------------------
  // ASCII case folding
  // ---------------------------------------------------------------------------

  predicate IsUpper(c: char) {
    'A' <= c <= 'Z'
  }

  predicate IsLetter(c: char) {
    IsUpper(c) || 'a' <= c <= 'z'
  }

  /** Lower-case one character; only the ASCII letters A-Z change. */
  function LowerChar(c: char): (d: char)
    ensures !IsUpper(d)
    ensures IsUpper(c) ==> d as int == c as int + 32
    ensures !IsUpper(c) ==> d == c
  {
    if IsUpper(c) then (c as int + 32) as char else c
  }

  /** `s.toLowerCase()`, restricted to ASCII case folding: the result has the same
      length and holds the lower-cased character at every position. */
  function ToLower(s: string): (r: string)
    ensures |r| == |s|
    ensures forall i :: 0 <= i < |s| ==> r[i] == LowerChar(s[i])
  {
    seq(|s|, i requires 0 <= i < |s| => LowerChar(s[i]))
  }

  predicate IsLower(s: string) {
    forall i :: 0 <= i < |s| ==> !IsUpper(s[i])
  }

  /** Lower-casing a capitalised word changes only its first letter. */
  lemma LowerCapitalised(c: char, rest: string)
    requires IsLower(rest)
    ensures ToLower([c] + rest) == [LowerChar(c)] + rest
  {
    var s := [c] + rest;
    assert ToLower(s)[0] == LowerChar(c);
    assert forall i :: 1 <= i < |s| ==> ToLower(s)[i] == rest[i - 1];
  }

  /** Lower-casing leaves no upper-case letter and is idempotent. */
  lemma ToLowerIdempotent(s: string)
    ensures IsLower(ToLower(s))
    ensures ToLower(ToLower(s)) == ToLower(s)
  {
  }

  /** Lower-casing commutes with taking a slice. */
  lemma ToLowerSlice(s: string, i: int, j: int)
    requires 0 <= i <= j <= |s|
    ensures ToLower(s)[i..j] == ToLower(s[i..j])
  {
    var a, b := ToLower(s)[i..j], ToLower(s[i..j]);
    forall k | 0 <= k < j - i
      ensures a[k] == b[k]
    {
      assert a[k] == ToLower(s)[i + k] == LowerChar(s[i + k]);
      assert b[k] == LowerChar(s[i..j][k]);
    }
  }

  /** Case-insensitive matching: if `w` occurs in `s`, then the lower-cased `w` occurs in
      the lower-cased `s`, whatever the case of the letters in either. */
  lemma ContainsLower(s: string, w: string)
    requires Contains(s, w)
    ensures Contains(ToLower(s), ToLower(w))
  {
    ContainsIffOccurs(s, w);
    var i :| OccursAt(s, w, i);
    ToLowerSlice(s, i, i + |w|);
    assert OccursAt(ToLower(s), ToLower(w), i);
    ContainsIffOccurs(ToLower(s), ToLower(w));
  }

  // ---------------------------------------------------------------------------
  // Splitting and joining
  // ---------------------------------------------------------------------------

  /** `s.split(sep)` for a one-character separator: the pieces between separators,
      including empty pieces, so there is always at least one piece. */
  function Split(s: string, sep: char): (r: seq<string>)
    ensures |r| >= 1
    ensures forall k :: 0 <= k < |r| ==> sep !in r[k]
    decreases |s|
  {
    if s == [] then [""]
    else
      var rest := Split(s[1..], sep);
      if s[0] == sep then [""] + rest else [[s[0]] + rest[0]] + rest[1..]
  }

  /** `xs.join(sep)`: the elements with `sep` between neighbours; `""` for no elements. */
  function Join(xs: seq<string>, sep: string): (r: string)
    ensures |xs| == 0 ==> r == ""
  {
    if |xs| == 0 then "" else if |xs| == 1 then xs[0] else xs[0] + sep + Join(xs[1..], sep)
  }

  /** Joining the pieces of a split with the separator gives back the original text. */
  lemma {:induction false} JoinSplit(s: string, sep: char)
    ensures Join(Split(s, sep), [sep]) == s
    decreases |s|
  {
    if s != [] {
      var rest := Split(s[1..], sep);
      JoinSplit(s[1..], sep);
      if s[0] == sep {
        assert Split(s, sep) == [""] + rest;
        assert ([""] + rest)[1..] == rest;
      } else {
        var r := [[s[0]] + rest[0]] + rest[1..];
        assert Split(s, sep) == r;
        if |rest| == 1 {
          assert Join(r, [sep]) == [s[0]] + rest[0];
        } else {
          assert r[1..] == rest[1..];
          assert Join(rest, [sep]) == rest[0] + [sep] + Join(rest[1..], [sep]);
          assert Join(r, [sep]) == [s[0]] + rest[0] + [sep] + Join(rest[1..], [sep]);
        }
      }
    }
  }

  /** Splitting a text that starts with a separator-free piece `w`. */
  lemma {:induction false} SplitAfterPiece(w: string, s: string, sep: char)
    requires sep !in w
    ensures Split(w + s, sep) == [w + Split(s, sep)[0]] + Split(s, sep)[1..]
    decreases |w|
  {
    if w != [] {
      var r := Split(s, sep);
      assert (w + s)[1..] == w[1..] + s;
      assert (w + s)[0] == w[0] != sep;
      SplitAfterPiece(w[1..], s, sep);
      var rest := Split(w[1..] + s, sep);
      assert rest[0] == w[1..] + r[0] && rest[1..] == r[1..];
      assert [w[0]] + (w[1..] + r[0]) == w + r[0];
    } else {
      var r := Split(s, sep);
      assert w + s == s && w + r[0] == r[0];
      assert r == [r[0]] + r[1..];
    }
  }

  /** Splitting a join of separator-free pieces gives back the pieces. */
  lemma {:induction false} SplitJoin(ws: seq<string>, sep: char)
    requires |ws| >= 1
    requires forall k :: 0 <= k < |ws| ==> sep !in ws[k]
    ensures Split(Join(ws, [sep]), sep) == ws
    decreases |ws|
  {
    if |ws| == 1 {
      SplitAfterPiece(ws[0], "", sep);
      assert ws[0] + "" == ws[0];
    } else {
      var tail := Join(ws[1..], [sep]);
      SplitJoin(ws[1..], sep);
      assert Join(ws, [sep]) == ws[0] + ([sep] + tail);
      SplitAfterPiece(ws[0], [sep] + tail, sep);
      assert ([sep] + tail)[1..] == tail;
      assert Split([sep] + tail, sep) == [""] + ws[1..];
      assert ws[0] + "" == ws[0];
      assert ws == [ws[0]] + ws[1..];
    }
  }

  /** Every piece of a split occurs in the text that was split. */
  lemma PieceOfSplit(s: string, sep: char, w: string)
    requires w in Split(s, sep)
    ensures Contains(s, w)
  {
    var pieces := Split(s, sep);
    var i :| 0 <= i < |pieces| && pieces[i] == w;
    JoinSplit(s, sep);
    JoinPlacesEach(pieces, [sep], i);
  }

  /** Lower-casing keeps concatenations apart. */
  lemma ToLowerAppend(a: string, b: string)
    ensures ToLower(a + b) == ToLower(a) + ToLower(b)
  {
  }

  /** The first piece of a split of a lower-cased text is the lower-cased word that the
      text starts with, when a separator follows that word. */
  lemma FirstWordLowered(word: string, rest: string, sep: char)
    requires sep !in word && |rest| > 0 && rest[0] == sep && !IsLetter(sep)
    ensures Split(ToLower(word + rest), sep)[0] == ToLower(word)
  {
    ToLowerAppend(word, rest);
    var w, r := ToLower(word), ToLower(rest);
    LowerKeepsAbsent(word, sep);
    SplitAfterPiece(w, r, sep);
    SplitLeadingSep(r, sep);
    assert w + "" == w;
  }

  /** Lower-casing brings no non-letter into a text that lacks it. */
  lemma LowerKeepsAbsent(s: string, c: char)
    requires c !in s && !IsLetter(c)
    ensures c !in ToLower(s)
  {
    var r := ToLower(s);
    forall i | 0 <= i < |r| ensures r[i] != c {
      assert r[i] == LowerChar(s[i]);
    }
  }

  /** A text that starts with the separator splits into an empty first piece. */
  lemma SplitLeadingSep(s: string, sep: char)
    requires |s| > 0 && s[0] == sep
    ensures Split(s, sep)[0] == ""
  {
  }

  /** Joining one more element onto the end. */
  lemma {:induction false} JoinSnoc(xs: seq<string>, x: string, sep: string)
    requires |xs| >= 1
    ensures Join(xs + [x], sep) == Join(xs, sep) + sep + x
    decreases |xs|
  {
    if |xs| == 1 {
      assert xs + [x] == [xs[0], x];
    } else {
      assert (xs + [x])[1..] == xs[1..] + [x];
      JoinSnoc(xs[1..], x, sep);
    }
  }

  /** Where element `i` starts in `Join(xs, sep)`. */
  function Offset(xs: seq<string>, sep: string, i: nat): nat
    requires i <= |xs|
  {
    if i == 0 then 0 else |Join(xs[..i], sep)| + |sep|
  }

  /** A slice lying past a prefix is a slice of what follows the prefix. */
  lemma SliceAfterPrefix(a: string, r: string, o: nat, n: nat)
    requires o + n <= |r|
    ensures (a + r)[|a| + o..|a| + o + n] == r[o..o + n]
  {
  }

  /** A join holds every element, each at its offset, and the elements follow one
      another in sequence order, each one separator after the end of the previous. */
  lemma {:induction false} JoinPlacesEach(xs: seq<string>, sep: string, i: nat)
    requires i < |xs|
    ensures OccursAt(Join(xs, sep), xs[i], Offset(xs, sep, i))
    ensures i + 1 < |xs| ==> Offset(xs, sep, i + 1) == Offset(xs, sep, i) + |xs[i]| + |sep|
    ensures Contains(Join(xs, sep), xs[i])
    decreases |xs|
  {
    var j := Join(xs, sep);
    if i == 0 {
      if |xs| > 1 {
        assert j == xs[0] + (sep + Join(xs[1..], sep));
      }
      assert j[..|xs[0]|] == xs[0];
    } else {
      JoinPlacesEach(xs[1..], sep, i - 1);
      OffsetShift(xs, sep, i);
      assert j == xs[0] + sep + Join(xs[1..], sep);
      SliceAfterPrefix(xs[0] + sep, Join(xs[1..], sep), Offset(xs[1..], sep, i - 1), |xs[i]|);
    }
    if i + 1 < |xs| {
      OffsetStep(xs, sep, i);
    }
    assert OccursAt(j, xs[i], Offset(xs, sep, i));
    ContainsIffOccurs(j, xs[i]);
  }

  /** Each element starts one separator after the end of the previous one. */
  lemma OffsetStep(xs: seq<string>, sep: string, i: nat)
    requires i + 1 < |xs|
    ensures Offset(xs, sep, i + 1) == Offset(xs, sep, i) + |xs[i]| + |sep|
  {
    if i == 0 {
      assert xs[..1] == [xs[0]];
    } else {
      JoinSnoc(xs[..i], xs[i], sep);
      assert xs[..i + 1] == xs[..i] + [xs[i]];
    }
  }

  /** Offsets in the tail are shifted by the first element and one separator. */
  lemma OffsetShift(xs: seq<string>, sep: string, i: nat)
    requires 0 < i < |xs|
    ensures Offset(xs, sep, i) == |xs[0]| + |sep| + Offset(xs[1..], sep, i - 1)
  {
    if i == 1 {
      assert xs[..1] == [xs[0]];
    } else {
      assert xs[1..][..i - 1] == xs[..i][1..];
      assert Join(xs[..i], sep) == xs[0] + sep + Join(xs[..i][1..], sep);
    }
  }

  /** A join breaks at every separator between two neighbouring elements. */
  lemma {:induction false} JoinAt(xs: seq<string>, sep: string, k: nat)
    requires 0 < k < |xs|
    ensures Join(xs, sep) == Join(xs[..k], sep) + sep + Join(xs[k..], sep)
    decreases k
  {
    if k == 1 {
      assert xs[..1] == [xs[0]];
    } else {
      JoinAt(xs[1..], sep, k - 1);
      assert xs[..k][1..] == xs[1..][..k - 1];
      assert xs[1..][k - 1..] == xs[k..];
    }
  }

  /** An occurrence inside `s` is an occurrence inside any text framing `s`. */
  lemma OccursFramed(pre: string, s: string, post: string, sub: string, o: int)
    requires OccursAt(s, sub, o)
    ensures OccursAt(pre + s + post, sub, |pre| + o)
  {
    var t := pre + s + post;
    forall k | 0 <= k < |sub| ensures t[|pre| + o + k] == sub[k] {
      assert sub[k] == s[o..o + |sub|][k] == s[o + k];
    }
    assert t[|pre| + o..|pre| + o + |sub|] == sub;
  }

  /** A listing framed by a header and a footer shows element `i` at its offset and,
      when there is a next element, the separator right after it and the next element
      right after that: the elements appear in sequence order. */
  lemma ListedInOrder(pre: string, xs: seq<string>, sep: string, post: string, i: nat)
    requires i < |xs|
    ensures OccursAt(pre + Join(xs, sep) + post, xs[i], |pre| + Offset(xs, sep, i))
    ensures i + 1 < |xs| ==>
      OccursAt(pre + Join(xs, sep) + post, sep, |pre| + Offset(xs, sep, i) + |xs[i]|) &&
      OccursAt(pre + Join(xs, sep) + post, xs[i + 1], |pre| + Offset(xs, sep, i) + |xs[i]| + |sep|)
    ensures Contains(pre + Join(xs, sep) + post, xs[i])
  {
    var j := Join(xs, sep);
    JoinPlacesEach(xs, sep, i);
    OccursFramed(pre, j, post, xs[i], Offset(xs, sep, i));
    if i + 1 < |xs| {
      JoinPlacesEach(xs, sep, i + 1);
      OccursFramed(pre, j, post, xs[i + 1], Offset(xs, sep, i + 1));
      JoinAt(xs, sep, i + 1);
      var left := Join(xs[..i + 1], sep);
      assert j == left + sep + Join(xs[i + 1..], sep);
      assert OccursAt(j, sep, |left|) by {
        assert j[|left|..|left| + |sep|] == sep;
      }
      OccursFramed(pre, j, post, sep, |left|);
    }
    ContainsIffOccurs(pre + j + post, xs[i]);
  }

  // ---------------------------------------------------------------------------
  // Decimal rendering of natural numbers
  // ---------------------------------------------------------------------------

  predicate IsDigit(c: char) {
    '0' <= c <= '9'
  }

  predicate IsDigits(s: string) {
    forall i :: 0 <= i < |s| ==> IsDigit(s[i])
  }

  function DigitChar(d: nat): (c: char)
    requires d < 10
    ensures IsDigit(c) && c as int - '0' as int == d
  {
    ('0' as int + d) as char
  }

  /** `n.toString()`: the shortest decimal numeral of `n`, all digits, no leading zero. */
  function NatToString(n: nat): (r: string)
    ensures |r| >= 1 && IsDigits(r)
    ensures r[0] == '0' ==> n == 0
    decreases n
  {
    if n < 10 then [DigitChar(n)] else NatToString(n / 10) + [DigitChar(n % 10)]
  }

  /** The value of a decimal numeral. */
  function ParseNat(s: string): nat
    requires IsDigits(s)
  {
    if s == [] then 0 else 10 * ParseNat(s[..|s| - 1]) + (s[|s| - 1] as int - '0' as int)
  }

  /** Rendering a number and reading the numeral back gives the number. */
  lemma {:induction false} ParseRendered(n: nat)
    ensures ParseNat(NatToString(n)) == n
    decreases n
  {
    var r := NatToString(n);
    if n >= 10 {
      ParseRendered(n / 10);
      assert r[..|r| - 1] == NatToString(n / 10);
    } else {
      assert r[..0] == [];
    }
  }
}
