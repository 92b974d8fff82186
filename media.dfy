/** The domain record of one local media item (an image or a video) and the
    values it derives: the identity key behind `id` and the `isImage` test. */
module MediaIdentity {

  /** Kotlin's `Long`: a signed 64-bit integer. */
  type Long = x: int | -0x8000_0000_0000_0000 <= x <= 0x7FFF_FFFF_FFFF_FFFF

  /** Kotlin's `Int`: a signed 32-bit integer, the type of a hash code. */
  type Int32 = x: int | -0x8000_0000 <= x <= 0x7FFF_FFFF

  /** An immutable media record. `duration` is 0 unless the caller gives one. */
  datatype Media = Media(
    uriString: string,
    path: string,
    createdDate: Long,
    fileSize: Long,
    duration: Long := 0)

  /** Omitting the duration gives a record whose duration is 0. */
  lemma DurationDefaultsToZero(uriString: string, path: string, createdDate: Long, fileSize: Long)
    ensures Media(uriString, path, createdDate, fileSize).duration == 0
    ensures Media(uriString, path, createdDate, fileSize) == Media(uriString, path, createdDate, fileSize, 0)
  {
  }

  // ---------------------------------------------------------------------------
  // Kotlin `Long` division and the truncation of a date to whole seconds

  /** Kotlin's integer division by a positive divisor: the quotient is
      truncated toward zero, so the remainder has the sign of the dividend. */
  function TruncDiv(a: int, b: int): (q: int)
    requires b > 0
    ensures a >= 0 ==> 0 <= q && q * b <= a < q * b + b
    ensures a < 0 ==> q <= 0 && q * b - b < a <= q * b
  {
    if a >= 0 then
      DivBounds(a, b);
      a / b
    else
      DivBounds(-a, b);
      assert (-((-a) / b)) * b == -(((-a) / b) * b);
      -((-a) / b)
  }

  /** Euclidean division of a non-negative dividend by a positive divisor
      leaves a remainder below the divisor. */
  lemma DivBounds(a: int, b: int)
    requires a >= 0 && b > 0
    ensures 0 <= a / b && (a / b) * b <= a < (a / b) * b + b
  {
    assert a == (a / b) * b + a % b;
  }

  /** A product of an integer difference of at least one with a positive factor
      is at least that factor. */
  lemma MulAtLeast(d: int, b: int)
    requires d >= 1 && b > 0
    ensures d * b >= b
  {
  }

  /** The quotient is the only integer with TruncDiv's contract. */
  lemma TruncDivUnique(a: int, b: int, q: int)
    requires b > 0
    requires a >= 0 ==> 0 <= q && q * b <= a < q * b + b
    requires a < 0 ==> q <= 0 && q * b - b < a <= q * b
    ensures TruncDiv(a, b) == q
  {
    var p := TruncDiv(a, b);
    assert (p - q) * b == p * b - q * b;
    assert (q - p) * b == q * b - p * b;
    if p > q {
      MulAtLeast(p - q, b);
    } else if q > p {
      MulAtLeast(q - p, b);
    }
  }

  /** `(createdDate / 1000) * 1000` with Kotlin's division: a multiple of one
      second that lies within one second of the date, on the side of zero. */
  function TruncateToSecond(date: Long): (t: Long)
    ensures t % 1000 == 0
    ensures date >= 0 ==> t <= date < t + 1000
    ensures date < 0 ==> t - 1000 < date <= t
  {
    TruncDiv(date, 1000) * 1000
  }

  /** Truncating an already truncated date changes nothing. */
  lemma TruncateIdempotent(date: Long)
    ensures TruncateToSecond(TruncateToSecond(date)) == TruncateToSecond(date)
  {
    var q := TruncDiv(date, 1000);
    var t := TruncateToSecond(date);
    assert t == q * 1000;
    TruncDivUnique(t, 1000, q);
  }

  /** Date `date` lies in second `s` as Kotlin's truncating division sees it:
      second `s >= 0` covers `[1000 s, 1000 s + 1000)`; second `s <= 0` of a
      negative date covers `(1000 s - 1000, 1000 s]`. Second 0 thus covers
      `(-1000, 1000)`. */
  predicate InSecond(date: int, s: int)
  {
    if date >= 0 then 0 <= s && s * 1000 <= date < s * 1000 + 1000
    else s <= 0 && s * 1000 - 1000 < date <= s * 1000
  }

  /** Every date in second `s` truncates to `1000 s`, and a date truncates to
      `1000 s` only if it lies in second `s`. */
  lemma TruncateInSecond(date: Long, s: int)
    ensures TruncateToSecond(date) == s * 1000 <==> InSecond(date, s)
  {
    if InSecond(date, s) {
      TruncDivUnique(date, 1000, s);
    }
    if TruncateToSecond(date) == s * 1000 {
      var q := TruncDiv(date, 1000);
      assert q * 1000 == s * 1000;
      assert q == s;
    }
  }

  // ---------------------------------------------------------------------------
  // `substringAfterLast` and the last segment of a URI

  /** Kotlin's `lastIndexOf` for one character: -1 when it does not occur. */
  function LastIndexOf(s: string, c: char): (i: int)
    ensures -1 <= i < |s|
    ensures i >= 0 ==> s[i] == c
    ensures forall j :: i < j < |s| ==> s[j] != c
  {
    if |s| == 0 then -1
    else if s[|s| - 1] == c then |s| - 1
    else LastIndexOf(s[..|s| - 1], c)
  }

  /** Kotlin's `substringAfterLast(delimiter)` with the default missing value:
      the longest suffix free of `c`, which is the whole string when `c` does
      not occur and otherwise starts right after the last `c`. */
  function SubstringAfterLast(s: string, c: char): (r: string)
    ensures |r| <= |s| && r == s[|s| - |r|..]
    ensures c !in r
    ensures c !in s ==> r == s
    ensures c in s ==> |r| < |s| && s[|s| - |r| - 1] == c
  {
    var i := LastIndexOf(s, c);
    if i == -1 then s else s[i + 1..]
  }

  /** SubstringAfterLast's contract determines its result. */
  lemma AfterLastUnique(s: string, c: char, r: string)
    requires |r| <= |s| && r == s[|s| - |r|..]
    requires c !in r
    requires c !in s ==> r == s
    requires c in s ==> |r| < |s| && s[|s| - |r| - 1] == c
    ensures SubstringAfterLast(s, c) == r
  {
    var r0 := SubstringAfterLast(s, c);
    if c in s {
      assert |r| == |r0|;
    }
  }

  /** Appending text free of `c` extends the segment after the last `c`. */
  lemma AfterLastAppendFree(p: string, s: string, c: char)
    requires c !in s
    ensures SubstringAfterLast(p + s, c) == SubstringAfterLast(p, c) + s
  {
    var a := SubstringAfterLast(p, c);
    var r := a + s;
    var t := p + s;
    assert t[|t| - |r|..] == p[|p| - |a|..] + s;
    if c in t {
      assert c in p;
      assert t[|t| - |r| - 1] == p[|p| - |a| - 1];
    } else {
      assert c !in p;
    }
    AfterLastUnique(t, c, r);
  }

  /** Once `c` occurs in the appended text, what comes before it is irrelevant. */
  lemma AfterLastAppendHas(p: string, s: string, c: char)
    requires c in s
    ensures SubstringAfterLast(p + s, c) == SubstringAfterLast(s, c)
  {
    var r := SubstringAfterLast(s, c);
    var t := p + s;
    assert t[|t| - |r|..] == s[|s| - |r|..];
    assert t[|t| - |r| - 1] == s[|s| - |r| - 1];
    var k :| 0 <= k < |s| && s[k] == c;
    assert t[|p| + k] == c;
    AfterLastUnique(t, c, r);
  }

  /** A string preceded by `c` keeps its own segment after the last `c`. */
  lemma AfterLastBehindDelimiter(p: string, s: string, c: char)
    ensures SubstringAfterLast(p + [c] + s, c) == SubstringAfterLast(s, c)
  {
    if c in s {
      AfterLastAppendHas(p + [c], s, c);
    } else {
      AfterLastAppendFree(p + [c], s, c);
      AfterLastAppendHas(p, [c], c);
      AfterLastUnique([c], c, []);
      assert [] + s == s;
    }
  }

  /** The part of a URI that the id keeps: after the last `/`, then after the
      last `\`. It is a suffix of the URI holding neither separator, and the
      whole URI when there is no separator. */
  function LastSegment(uri: string): (seg: string)
    ensures |seg| <= |uri| && seg == uri[|uri| - |seg|..]
    ensures '/' !in seg && '\\' !in seg
    ensures '/' !in uri && '\\' !in uri ==> seg == uri
  {
    var afterSlash := SubstringAfterLast(uri, '/');
    var seg := SubstringAfterLast(afterSlash, '\\');
    seg
  }

  /** A directory prefix ending in either separator does not change the last
      segment: both `dir/name` and `dir\name` give the segment of `name`. */
  lemma {:induction false} DirectoryPrefixIgnored(dir: string, sep: char, name: string)
    requires sep == '/' || sep == '\\'
    ensures LastSegment(dir + [sep] + name) == LastSegment(name)
  {
    var uri := dir + [sep] + name;
    if sep == '/' {
      AfterLastBehindDelimiter(dir, name, '/');
    } else if '/' in name {
      assert uri == (dir + [sep]) + name;
      AfterLastAppendHas(dir + [sep], name, '/');
    } else {
      var q := SubstringAfterLast(dir, '/');
      assert uri == (dir + [sep]) + name;
      AfterLastAppendFree(dir + [sep], name, '/');
      AfterLastAppendFree(dir, [sep], '/');
      assert SubstringAfterLast(uri, '/') == q + [sep] + name;
      AfterLastBehindDelimiter(q, name, '\\');
    }
  }

  // ---------------------------------------------------------------------------
  // The identity key and `id`

  /** `t` is a suffix of `s`. */
  predicate IsSuffix(t: string, s: string)
  {
    |t| <= |s| && t == s[|s| - |t|..]
  }

  /** The three values that `id` hashes. */
  datatype IdKey = IdKey(segment: string, truncatedDate: Long, fileSize: Long)

  /** The key of a record: a separator-free suffix of its URI, a whole second
      within one second of its date on the side of zero, and its size. */
  function Key(m: Media): (k: IdKey)
    ensures IsSuffix(k.segment, m.uriString)
    ensures '/' !in k.segment && '\\' !in k.segment
    ensures k.truncatedDate % 1000 == 0
    ensures m.createdDate >= 0 ==> k.truncatedDate <= m.createdDate < k.truncatedDate + 1000
    ensures m.createdDate < 0 ==> k.truncatedDate - 1000 < m.createdDate <= k.truncatedDate
    ensures k.fileSize == m.fileSize
  {
    var segment := LastSegment(m.uriString);
    var truncated := TruncateToSecond(m.createdDate);
    IdKey(segment, truncated, m.fileSize)
  }

  /** Two records have the same key exactly when their URIs end in the same
      segment, their dates fall in the same second and their sizes agree;
      `path` and `duration` play no part. */
  lemma KeyEqualIff(a: Media, b: Media)
    ensures Key(a) == Key(b) <==>
      LastSegment(a.uriString) == LastSegment(b.uriString) &&
      TruncDiv(a.createdDate, 1000) == TruncDiv(b.createdDate, 1000) &&
      a.fileSize == b.fileSize
  {
    var qa, qb := TruncDiv(a.createdDate, 1000), TruncDiv(b.createdDate, 1000);
    if qa * 1000 == qb * 1000 {
      assert qa == qb;
    }
  }

  /** Sub-second jitter is collapsed: records whose dates fall in one second,
      with equal last segments and sizes, have equal keys, whatever their
      directory prefixes, paths and durations. */
  lemma SameSecondSameKey(a: Media, b: Media, s: int)
    requires LastSegment(a.uriString) == LastSegment(b.uriString)
    requires InSecond(a.createdDate, s) && InSecond(b.createdDate, s)
    requires a.fileSize == b.fileSize
    ensures Key(a) == Key(b)
    ensures Key(a).truncatedDate == s * 1000
  {
    TruncateInSecond(a.createdDate, s);
    TruncateInSecond(b.createdDate, s);
  }

  /** `id` as the key intends it: a content hash of the key. The hash itself
      is left abstract, so it is a parameter. */
  function Id(m: Media, hash: IdKey -> Int32): (id: Int32)
    ensures forall other: Media :: Key(other) == Key(m) ==> hash(Key(other)) == id
  {
    hash(Key(m))
  }

  /** With a content hash, records in the same second with the same last
      segment and size get the same id. */
  lemma SameSecondSameId(a: Media, b: Media, s: int, hash: IdKey -> Int32)
    requires LastSegment(a.uriString) == LastSegment(b.uriString)
    requires InSecond(a.createdDate, s) && InSecond(b.createdDate, s)
    requires a.fileSize == b.fileSize
    ensures Id(a, hash) == Id(b, hash)
  {
    SameSecondSameKey(a, b, s);
  }

  /** `id` as written: `hashCode()` of a freshly allocated array, which on the
      JVM is the array's identity hash. It depends on the allocation, not on
      the record. */
  function IdAsWritten(m: Media, identityHash: nat -> Int32, allocation: nat): Int32
  {
    identityHash(allocation)
  }

  /** As written, the record does not reach `id`: any two records, even with
      different keys, get the same id from the same allocation. */
  lemma IdAsWrittenIgnoresRecord(a: Media, b: Media, identityHash: nat -> Int32, allocation: nat)
    ensures IdAsWritten(a, identityHash, allocation) == IdAsWritten(b, identityHash, allocation)
  {
  }

  /** As written, reading `id` twice on one record can disagree: two
      allocations with distinct identity hashes give distinct ids. */
  lemma IdAsWrittenIsUnstable(m: Media)
    ensures IdAsWritten(m, a => if a < 0x8000_0000 then a else 0, 0) !=
            IdAsWritten(m, a => if a < 0x8000_0000 then a else 0, 1)
  {
  }

  // ---------------------------------------------------------------------------
  // `isImage`

  /** The marker whose presence in the URI classifies a record as an image. */
  const ImageMarker: string := "images"

  /** `t` occurs at position `i` of `s`. */
  predicate OccursAt(s: string, t: string, i: int)
  {
    0 <= i && i + |t| <= |s| && s[i..i + |t|] == t
  }

  /** Kotlin's `contains` for a substring. */
  function Contains(s: string, t: string): (b: bool)
    ensures b <==> exists i :: OccursAt(s, t, i)
    decreases |s|
  {
    if |t| <= |s| && s[..|t|] == t then
      assert OccursAt(s, t, 0);
      true
    else if |s| == 0 then
      assert forall i :: !OccursAt(s, t, i);
      false
    else
      var rest := Contains(s[1..], t);
      assert forall i :: OccursAt(s[1..], t, i) ==> OccursAt(s, t, i + 1) by {
        forall i | OccursAt(s[1..], t, i) ensures OccursAt(s, t, i + 1) {
          assert s[i + 1..i + 1 + |t|] == s[1..][i..i + |t|];
        }
      }
      assert forall i :: OccursAt(s, t, i) ==> i >= 1 && OccursAt(s[1..], t, i - 1) by {
        forall i | OccursAt(s, t, i) ensures i >= 1 && OccursAt(s[1..], t, i - 1) {
          assert s[1..][i - 1..i - 1 + |t|] == s[i..i + |t|];
        }
      }
      rest
  }

  /** A record is an image exactly when its URI contains "images". */
  function IsImage(m: Media): (b: bool)
    ensures b <==> exists i :: OccursAt(m.uriString, ImageMarker, i)
  {
    Contains(m.uriString, ImageMarker)
  }
}
