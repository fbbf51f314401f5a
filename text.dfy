/** Octets, byte strings and the separator join and split shared by the wrappers. */
module Text {

  /** One octet. Rust `String`s whose byte order matters are handled through their UTF-8 bytes. */
  type byte = b: int | 0 <= b < 256

  type Bytes = seq<byte>

  datatype Option<+T> = None | Some(value: T)

  /** `parts` with `sep` between neighbours, as Rust's `[S]::join`: the empty list joins to
      the empty string, and there is no separator before the first part or after the last. */
  function Join<T>(parts: seq<seq<T>>, sep: seq<T>): seq<T>
  {
    if |parts| == 0 then []
    else if |parts| == 1 then parts[0]
    else parts[0] + sep + Join(parts[1..], sep)
  }

  /** The join starts with the first part and ends with the last one: no separator comes
      before the first part or after the last. */
  lemma {:induction false} JoinEnds<T>(parts: seq<seq<T>>, sep: seq<T>)
    requires parts != []
    ensures parts[0] <= Join(parts, sep)
    ensures var r, last := Join(parts, sep), parts[|parts| - 1];
      |last| <= |r| && r[|r| - |last|..] == last
  {
    if |parts| > 1 {
      var rest := Join(parts[1..], sep);
      var r := Join(parts, sep);
      JoinEnds(parts[1..], sep);
      assert parts[1..][|parts| - 2] == parts[|parts| - 1];
      assert r == parts[0] + sep + rest;
      assert r[|r| - |parts[|parts| - 1]|..] == rest[|rest| - |parts[|parts| - 1]|..];
    }
  }

  /** Appending one part to a non-empty list adds exactly one separator before it. */
  lemma {:induction false} JoinSnoc<T>(parts: seq<seq<T>>, last: seq<T>, sep: seq<T>)
    requires parts != []
    ensures Join(parts + [last], sep) == Join(parts, sep) + sep + last
  {
    if |parts| == 1 {
      assert (parts + [last])[1..] == [last];
    } else {
      assert (parts + [last])[1..] == parts[1..] + [last];
      JoinSnoc(parts[1..], last, sep);
    }
  }

  /** When no part contains the one-element separator `c`, the join holds exactly one `c`
      per gap between parts: n parts give n - 1 separators, and none for zero parts. */
  lemma {:induction false} JoinSeparatorCount<T>(parts: seq<seq<T>>, c: T)
    requires forall i | 0 <= i < |parts| :: c !in parts[i]
    ensures multiset(Join(parts, [c]))[c] == if parts == [] then 0 else |parts| - 1
  {
    if |parts| > 1 {
      JoinSeparatorCount(parts[1..], c);
      assert c !in parts[0];
      assert multiset(parts[0] + [c] + Join(parts[1..], [c]))
          == multiset(parts[0]) + multiset([c]) + multiset(Join(parts[1..], [c]));
    } else if |parts| == 1 {
      assert c !in parts[0];
    }
  }

  /** Rust's `str::split` on a single separator: the pieces between separators, so the empty
      string splits into one empty piece. */
  function Split<T(==)>(s: seq<T>, c: T): (r: seq<seq<T>>)
    ensures r != []
  {
    if s == [] then [[]]
    else
      var rest := Split(s[1..], c);
      if s[0] == c then [[]] + rest else [[s[0]] + rest[0]] + rest[1..]
  }

  /** A piece without separator splits to itself. */
  lemma {:induction false} SplitPiece<T>(a: seq<T>, c: T)
    requires c !in a
    ensures Split(a, c) == [a]
  {
    if a != [] {
      SplitPiece(a[1..], c);
      assert [a[0]] + a[1..] == a;
    }
  }

  /** A separator after a piece without one ends that piece. */
  lemma {:induction false} SplitAfterPiece<T>(a: seq<T>, c: T, b: seq<T>)
    requires c !in a
    ensures Split(a + [c] + b, c) == [a] + Split(b, c)
  {
    if a == [] {
      assert a + [c] + b == [c] + b;
      assert ([c] + b)[1..] == b;
    } else {
      assert (a + [c] + b)[1..] == a[1..] + [c] + b;
      SplitAfterPiece(a[1..], c, b);
      assert [a[0]] + a[1..] == a;
    }
  }

  /** Split undoes Join for a non-empty list of parts none of which holds the separator. */
  lemma {:induction false} SplitJoin<T>(parts: seq<seq<T>>, c: T)
    requires parts != []
    requires forall i | 0 <= i < |parts| :: c !in parts[i]
    ensures Split(Join(parts, [c]), c) == parts
  {
    assert c !in parts[0];
    if |parts| == 1 {
      SplitPiece(parts[0], c);
    } else {
      SplitJoin(parts[1..], c);
      SplitAfterPiece(parts[0], c, Join(parts[1..], [c]));
      assert [parts[0]] + parts[1..] == parts;
    }
  }

  /** Joining the pieces of a split at the same separator gives back the string, so the
      pieces determine it. */
  lemma {:induction false} JoinSplit<T>(s: seq<T>, c: T)
    ensures Join(Split(s, c), [c]) == s
  {
    if s != [] {
      var rest := Split(s[1..], c);
      JoinSplit(s[1..], c);
      if s[0] == c {
        assert ([[]] + rest)[1..] == rest;
        assert [c] + s[1..] == s;
      } else if |rest| == 1 {
        assert [s[0]] + s[1..] == s;
      } else {
        assert ([[s[0]] + rest[0]] + rest[1..])[1..] == rest[1..];
        assert [s[0]] + s[1..] == s;
      }
    }
  }

  /** A character that is in no part and not in the separator is not in the join. */
  lemma {:induction false} JoinAvoids<T>(parts: seq<seq<T>>, sep: seq<T>, c: T)
    requires c !in sep
    requires forall i | 0 <= i < |parts| :: c !in parts[i]
    ensures c !in Join(parts, sep)
  {
    if |parts| > 1 {
      JoinAvoids(parts[1..], sep, c);
      assert c !in parts[0];
    } else if |parts| == 1 {
      assert c !in parts[0];
    }
  }

  /** A part that itself holds the separator joins like the two parts on either side of it. */
  lemma {:induction false} JoinSplitsPart<T>(parts: seq<seq<T>>, i: nat, a: seq<T>, b: seq<T>, c: T)
    requires i < |parts| && parts[i] == a + [c] + b
    ensures Join(parts, [c]) == Join(parts[..i] + [a, b] + parts[i + 1..], [c])
  {
    var rhs := parts[..i] + [a, b] + parts[i + 1..];
    if i == 0 {
      assert rhs == [a] + ([b] + parts[1..]);
      assert rhs[1..] == [b] + parts[1..];
      if |parts| > 1 {
        assert ([b] + parts[1..])[1..] == parts[1..];
      }
    } else {
      JoinSplitsPart(parts[1..], i - 1, a, b, c);
      assert parts[1..][..i - 1] == parts[1..i];
      assert parts[1..][i..] == parts[i + 1..];
      assert rhs[0] == parts[0];
      assert rhs[1..] == parts[1..i] + [a, b] + parts[i + 1..];
    }
  }
}
