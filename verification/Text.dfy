/** Substring search and replacement on sequences, as Python's `in` and `str.replace` define them. */
module Text {

  /** `needle` is found in `hay` starting at index `i`. */
  predicate OccursAt<T(==)>(needle: seq<T>, hay: seq<T>, i: int)
  {
    0 <= i <= |hay| - |needle| && hay[i..i + |needle|] == needle
  }

  /** Python's `needle in hay`. */
  predicate Occurs<T(==)>(needle: seq<T>, hay: seq<T>)
  {
    exists i | 0 <= i <= |hay| :: OccursAt(needle, hay, i)
  }

  /** Python's `text.replace(pattern, put)`: leftmost occurrences first, never overlapping.
      An empty pattern matches before every element and at the end. */
  function Replace<T(==)>(text: seq<T>, pattern: seq<T>, put: seq<T>): seq<T>
    decreases |text|
  {
    if pattern == [] then
      if text == [] then put else put + [text[0]] + Replace(text[1..], pattern, put)
    else if text == [] then []
    else if OccursAt(pattern, text, 0) then put + Replace(text[|pattern|..], pattern, put)
    else [text[0]] + Replace(text[1..], pattern, put)
  }

  lemma OccursAtIndex<T>(needle: seq<T>, hay: seq<T>, i: int, k: int)
    requires OccursAt(needle, hay, i) && 0 <= k < |needle|
    ensures hay[i + k] == needle[k]
  {
    assert hay[i..i + |needle|][k] == needle[k];
  }

  lemma OccursInside<T>(needle: seq<T>, left: seq<T>, mid: seq<T>, right: seq<T>)
    requires Occurs(needle, mid)
    ensures Occurs(needle, left + mid + right)
  {
    var i :| 0 <= i <= |mid| && OccursAt(needle, mid, i);
    var whole := left + mid + right;
    assert whole[|left| + i..|left| + i + |needle|] == mid[i..i + |needle|];
    assert OccursAt(needle, whole, |left| + i);
  }

  lemma OccursLeft<T>(needle: seq<T>, left: seq<T>, right: seq<T>)
    requires Occurs(needle, left)
    ensures Occurs(needle, left + right)
  {
    OccursInside(needle, [], left, right);
    assert [] + left + right == left + right;
  }

  lemma OccursRight<T>(needle: seq<T>, left: seq<T>, right: seq<T>)
    requires Occurs(needle, right)
    ensures Occurs(needle, left + right)
  {
    OccursInside(needle, left, right, []);
    assert left + right + [] == left + right;
  }

  lemma OccursTransitive<T>(a: seq<T>, b: seq<T>, c: seq<T>)
    requires Occurs(a, b) && Occurs(b, c)
    ensures Occurs(a, c)
  {
    var i :| 0 <= i <= |c| && OccursAt(b, c, i);
    assert c == c[..i] + b + c[i + |b|..];
    OccursInside(a, c[..i], b, c[i + |b|..]);
  }

  lemma OccursBefore<T>(needle: seq<T>, left: seq<T>, right: seq<T>, i: int)
    requires OccursAt(needle, left + right, i) && i + |needle| <= |left|
    ensures OccursAt(needle, left, i) && Occurs(needle, left)
  {
    assert left[i..i + |needle|] == (left + right)[i..i + |needle|];
    assert OccursAt(needle, left, i);
  }

  lemma OccursBehind<T>(needle: seq<T>, left: seq<T>, right: seq<T>, i: int)
    requires OccursAt(needle, left + right, i) && i >= |left|
    ensures OccursAt(needle, right, i - |left|) && Occurs(needle, right)
  {
    var k := i - |left|;
    assert right[k..k + |needle|] == (left + right)[i..i + |needle|];
    assert OccursAt(needle, right, k);
  }

  /** A needle without the element `stop` never spans it. */
  lemma MatchAroundStop<T>(needle: seq<T>, left: seq<T>, stop: T, right: seq<T>, i: int)
    requires stop !in needle && OccursAt(needle, left + [stop] + right, i)
    ensures Occurs(needle, left) || Occurs(needle, right)
  {
    if i + |needle| <= |left| {
      assert left + [stop] + right == left + ([stop] + right);
      OccursBefore(needle, left, [stop] + right, i);
    } else if i > |left| {
      OccursBehind(needle, left + [stop], right, i);
    } else {
      OccursAtIndex(needle, left + [stop] + right, i, |left| - i);
      assert false;
    }
  }

  lemma OccursAroundStop<T>(needle: seq<T>, left: seq<T>, stop: T, right: seq<T>)
    requires stop !in needle
    ensures Occurs(needle, left + [stop] + right) <==> Occurs(needle, left) || Occurs(needle, right)
  {
    var whole := left + [stop] + right;
    if Occurs(needle, whole) {
      var i :| 0 <= i <= |whole| && OccursAt(needle, whole, i);
      MatchAroundStop(needle, left, stop, right, i);
    } else if Occurs(needle, left) {
      OccursLeft(needle, left, [stop]);
      OccursLeft(needle, left + [stop], right);
    } else if Occurs(needle, right) {
      OccursRight(needle, left + [stop], right);
    }
  }

  /** The least index at which a needle occurs. */
  lemma {:induction false} FirstOccurrence<T>(needle: seq<T>, hay: seq<T>, w: nat) returns (i: nat)
    requires OccursAt(needle, hay, w)
    ensures OccursAt(needle, hay, i)
    ensures forall j :: 0 <= j < i ==> !OccursAt(needle, hay, j)
    decreases w
  {
    if j: nat :| j < w && OccursAt(needle, hay, j) {
      i := FirstOccurrence(needle, hay, j);
    } else {
      i := w;
    }
  }

  lemma OccursInTail<T>(needle: seq<T>, hay: seq<T>)
    requires hay != [] && Occurs(needle, hay[1..])
    ensures Occurs(needle, hay)
  {
    OccursInside(needle, [hay[0]], hay[1..], []);
    assert [hay[0]] + hay[1..] + [] == hay;
  }

  lemma OccursAtInTail<T>(needle: seq<T>, hay: seq<T>, i: int)
    requires hay != [] && 0 <= i
    ensures OccursAt(needle, hay[1..], i) <==> OccursAt(needle, hay, i + 1)
  {
    if i + |needle| < |hay| {
      assert hay[1..][i..i + |needle|] == hay[i + 1..i + 1 + |needle|];
    }
  }

  lemma ReplaceHere<T>(pattern: seq<T>, after: seq<T>, put: seq<T>)
    requires pattern != []
    ensures Replace(pattern + after, pattern, put) == put + Replace(after, pattern, put)
  {
    var text := pattern + after;
    assert text[0..|pattern|] == pattern;
    assert text[|pattern|..] == after;
  }

  lemma ReplaceStep<T>(text: seq<T>, pattern: seq<T>, put: seq<T>)
    requires pattern != [] && text != [] && !OccursAt(pattern, text, 0)
    ensures Replace(text, pattern, put) == [text[0]] + Replace(text[1..], pattern, put)
  {
  }

  /** `replace` acts at the first occurrence and goes on after it. */
  lemma {:induction false} ReplaceAtFirst<T>(before: seq<T>, pattern: seq<T>, after: seq<T>, put: seq<T>)
    requires pattern != []
    requires forall j :: 0 <= j < |before| ==> !OccursAt(pattern, before + pattern + after, j)
    ensures Replace(before + pattern + after, pattern, put) == before + put + Replace(after, pattern, put)
    decreases |before|
  {
    var text := before + pattern + after;
    if before == [] {
      assert text == pattern + after;
      ReplaceHere(pattern, after, put);
      assert [] + put == put;
    } else {
      var tail := before[1..] + pattern + after;
      assert text[1..] == tail;
      forall j | 0 <= j < |before| - 1 ensures !OccursAt(pattern, tail, j) {
        OccursAtInTail(pattern, text, j);
      }
      ReplaceAtFirst(before[1..], pattern, after, put);
      assert !OccursAt(pattern, text, 0);
      ReplaceStep(text, pattern, put);
      Regroup([before[0]], before[1..], put, Replace(after, pattern, put));
      assert [before[0]] + before[1..] == before;
    }
  }

  lemma Regroup<T>(a: seq<T>, b: seq<T>, c: seq<T>, d: seq<T>)
    ensures a + b + c + d == a + (b + (c + d))
    ensures a + b + c + d == a + (b + c + d)
  {
  }

  /** `replace` leaves a text without an occurrence as it is. */
  lemma {:induction false} ReplaceAbsent<T>(text: seq<T>, pattern: seq<T>, put: seq<T>)
    requires pattern != [] && !Occurs(pattern, text)
    ensures Replace(text, pattern, put) == text
    decreases |text|
  {
    if text != [] {
      assert !OccursAt(pattern, text, 0);
      if Occurs(pattern, text[1..]) {
        OccursInTail(pattern, text);
        assert false;
      }
      ReplaceAbsent(text[1..], pattern, put);
    }
  }

  lemma ReplaceEmptyStep<T>(text: seq<T>, put: seq<T>)
    requires text != []
    ensures Replace(text, [], put) == put + ([text[0]] + Replace(text[1..], [], put))
  {
    assert put + [text[0]] + Replace(text[1..], [], put) == put + ([text[0]] + Replace(text[1..], [], put));
  }

  lemma EmptyPatternStep<T>(text: seq<T>, put: seq<T>, rest: seq<T>, after: seq<T>)
    requires text != [] && Replace(text[1..], [], put) == rest + after
    ensures Replace(text, [], put) == put + [text[0]] + rest + after
  {
    ReplaceEmptyStep(text, put);
    assert put + ([text[0]] + (rest + after)) == put + [text[0]] + rest + after;
  }

  lemma EmptyPatternStart<T>(text: seq<T>, put: seq<T>) returns (after: seq<T>)
    ensures Replace(text, [], put) == put + after
  {
    if text == [] {
      after := [];
      assert put + [] == put;
    } else {
      after := [text[0]] + Replace(text[1..], [], put);
      ReplaceEmptyStep(text, put);
    }
  }

  /** An empty pattern is found at every position, the end included. */
  lemma {:induction false} ReplaceEmpty<T>(left: seq<T>, right: seq<T>, put: seq<T>)
    returns (before: seq<T>, after: seq<T>)
    ensures Replace(left, [], put) == before + put
    ensures Replace(right, [], put) == put + after
    ensures Replace(left + right, [], put) == before + put + after
    decreases |left|
  {
    if left == [] {
      before := [];
      after := EmptyPatternStart(right, put);
      assert left + right == right;
      assert [] + put == put;
    } else {
      var rest;
      rest, after := ReplaceEmpty(left[1..], right, put);
      before := put + [left[0]] + rest;
      ReplaceEmptyMore(left, right, put, rest, after);
    }
  }

  lemma ReplaceEmptyMore<T>(left: seq<T>, right: seq<T>, put: seq<T>, rest: seq<T>, after: seq<T>)
    requires left != [] && Replace(left[1..], [], put) == rest + put
    requires Replace(left[1..] + right, [], put) == rest + put + after
    ensures Replace(left, [], put) == put + [left[0]] + rest + put
    ensures Replace(left + right, [], put) == put + [left[0]] + rest + put + after
  {
    EmptyPatternStep(left, put, rest, put);
    assert (left + right)[1..] == left[1..] + right && (left + right)[0] == left[0];
    assert rest + put + after == rest + (put + after);
    EmptyPatternStep(left + right, put, rest, put + after);
    EndsAlike(put + [left[0]] + rest, put, after);
  }

  lemma EndsAlike<T>(a: seq<T>, b: seq<T>, c: seq<T>)
    ensures a + (b + c) == a + b + c
  {
  }

  /** A match at the start of `left + [stop] + right` lies inside `left`. */
  lemma MatchBeforeStop<T>(left: seq<T>, stop: T, right: seq<T>, pattern: seq<T>)
    requires pattern != [] && stop !in pattern
    ensures OccursAt(pattern, left + [stop] + right, 0) <==> OccursAt(pattern, left, 0)
  {
    var whole := left + [stop] + right;
    if |pattern| <= |left| {
      assert whole[0..|pattern|] == left[0..|pattern|];
    } else if OccursAt(pattern, whole, 0) {
      OccursAtIndex(pattern, whole, 0, |left|);
      assert false;
    }
  }

  /** The first step of `replace`: what it puts, and how far it goes on. */
  lemma ReplaceFirst<T>(text: seq<T>, pattern: seq<T>, put: seq<T>, n: nat, head: seq<T>)
    requires pattern != [] && text != [] && n <= |text|
    requires if OccursAt(pattern, text, 0) then n == |pattern| && head == put else n == 1 && head == [text[0]]
    ensures Replace(text, pattern, put) == head + Replace(text[n..], pattern, put)
  {
  }

  lemma ReplaceFirstAround<T>(left: seq<T>, stop: T, right: seq<T>, pattern: seq<T>, put: seq<T>,
                              n: nat, head: seq<T>, after: seq<T>)
    requires pattern != [] && stop !in pattern && left != [] && n <= |left|
    requires if OccursAt(pattern, left, 0) then n == |pattern| && head == put else n == 1 && head == [left[0]]
    requires Replace(left[n..] + [stop] + right, pattern, put)
          == Replace(left[n..], pattern, put) + [stop] + after
    ensures Replace(left + [stop] + right, pattern, put) == Replace(left, pattern, put) + [stop] + after
  {
    var whole := left + [stop] + right;
    MatchBeforeStop(left, stop, right, pattern);
    DropAround(left, stop, right, n);
    ReplaceFirst(whole, pattern, put, n, head);
    ReplaceFirst(left, pattern, put, n, head);
    Regroup(head, Replace(left[n..], pattern, put), [stop], after);
  }

  lemma DropAround<T>(left: seq<T>, stop: T, right: seq<T>, n: nat)
    requires left != [] && n <= |left|
    ensures (left + [stop] + right)[n..] == left[n..] + [stop] + right
    ensures (left + [stop] + right)[0] == left[0]
  {
  }

  lemma ReplaceAtStop<T>(stop: T, right: seq<T>, pattern: seq<T>, put: seq<T>)
    requires pattern != [] && stop !in pattern
    ensures Replace([stop] + right, pattern, put) == [stop] + Replace(right, pattern, put)
  {
    var text := [stop] + right;
    if OccursAt(pattern, text, 0) {
      OccursAtIndex(pattern, text, 0, 0);
      assert false;
    }
    assert text[0] == stop && text[1..] == right;
    ReplaceFirst(text, pattern, put, 1, [stop]);
  }

  /** `replace` works independently on both sides of an element that the pattern lacks. */
  lemma {:induction false} ReplaceAroundStop<T>(left: seq<T>, stop: T, right: seq<T>, pattern: seq<T>, put: seq<T>)
    requires pattern != [] && stop !in pattern
    ensures Replace(left + [stop] + right, pattern, put)
         == Replace(left, pattern, put) + [stop] + Replace(right, pattern, put)
    decreases |left|
  {
    if left == [] {
      ReplaceAtStop(stop, right, pattern, put);
      assert left + [stop] + right == [stop] + right;
      assert [] + [stop] + Replace(right, pattern, put) == [stop] + Replace(right, pattern, put);
    } else {
      var n := if OccursAt(pattern, left, 0) then |pattern| else 1;
      var head := if OccursAt(pattern, left, 0) then put else [left[0]];
      ReplaceAroundStop(left[n..], stop, right, pattern, put);
      ReplaceFirstAround(left, stop, right, pattern, put, n, head, Replace(right, pattern, put));
    }
  }

  /** Python's `separator.join(parts)`. */
  function Joined(parts: seq<string>, separator: string): string
  {
    if parts == [] then ""
    else if |parts| == 1 then parts[0]
    else parts[0] + separator + Joined(parts[1..], separator)
  }

  lemma JoinedFirst(parts: seq<string>, separator: string, first: string, rest: seq<string>)
    requires parts == [first] + rest
    ensures Joined(parts, separator) == first + if rest == [] then "" else separator + Joined(rest, separator)
  {
    assert parts[1..] == rest;
  }
}
