/** Password digests as bcryptjs computes them. With a `$2a$`/`$2b$` salt the
    password is encoded as UTF-8 and followed by a NUL byte, and the key
    schedule reads that byte stream round and round until it has 72 bytes;
    those 72 bytes are all of the password the digest depends on. The salt,
    the cost factor and the Blowfish rounds are not modelled, so a digest is
    an injective wrapper of the 72 key bytes. */
module PasswordDigest {
  import opened Common

  type Byte = b: int | 0 <= b < 0x100

  /** The number of key bytes bcrypt's key schedule reads (18 words of 4 bytes). */
  const KeyBytes := 72

  /** The number of bytes of a UTF-8 sequence, as its lead byte says. */
  function LeadLength(b: Byte): nat {
    if b < 0x80 then 1 else if b < 0xE0 then 2 else if b < 0xF0 then 3 else 4
  }

  /** The UTF-8 encoding of one Unicode scalar value. */
  function Utf8Char(c: char): (r: seq<Byte>)
    ensures 1 <= |r| <= 4 && |r| == LeadLength(r[0])
    ensures r[0] < 0x80 || 0xC0 <= r[0]
    ensures forall k :: 1 <= k < |r| ==> 0x80 <= r[k] < 0xC0
    ensures ZeroFree(r) <==> c != '\0'
  {
    var n := c as int;
    if n < 0x80 then [n]
    else if n < 0x800 then [0xC0 + n / 0x40, 0x80 + n % 0x40]
    else if n < 0x10000 then [0xE0 + n / 0x1000, 0x80 + n / 0x40 % 0x40, 0x80 + n % 0x40]
    else [0xF0 + n / 0x40000, 0x80 + n / 0x1000 % 0x40, 0x80 + n / 0x40 % 0x40, 0x80 + n % 0x40]
  }

  /** Reads a code point back from its UTF-8 bytes. */
  function DecodeChar(x: seq<Byte>): int
    requires 1 <= |x| <= 4
  {
    var b0: int := x[0];
    if |x| == 1 then b0
    else
      var tail: int := x[|x| - 1] as int - 0x80;
      if |x| == 2 then (b0 - 0xC0) * 0x40 + tail
      else
        var mid: int := x[|x| - 2] as int - 0x80;
        if |x| == 3 then (b0 - 0xE0) * 0x1000 + mid * 0x40 + tail
        else (b0 - 0xF0) * 0x40000 + (x[1] as int - 0x80) * 0x1000 + mid * 0x40 + tail
  }

  /** Decoding undoes the encoding of every character. */
  lemma {:induction false} Utf8CharDecodes(c: char)
    ensures DecodeChar(Utf8Char(c)) == c as int
  {
    var n := c as int;
    assert n == n / 0x40 * 0x40 + n % 0x40;
    assert n / 0x40 == n / 0x1000 * 0x40 + n / 0x40 % 0x40;
    assert n / 0x1000 == n / 0x40000 * 0x40 + n / 0x1000 % 0x40;
  }

  /** The UTF-8 encoding of a string, character by character. */
  function Utf8(s: string): (r: seq<Byte>)
    ensures |s| <= |r| <= 4 * |s|
  {
    if s == [] then [] else Utf8Char(s[0]) + Utf8(s[1..])
  }

  lemma {:induction false} Utf8Append(a: string, b: string)
    ensures Utf8(a + b) == Utf8(a) + Utf8(b)
  {
    if a == [] {
      assert a + b == b;
    } else {
      assert (a + b)[1..] == a[1..] + b;
      Utf8Append(a[1..], b);
    }
  }

  /** Different strings have different encodings: the lead byte fixes the
      length of the first character's bytes, which fix the character. */
  lemma {:induction false} Utf8Injective(a: string, b: string)
    requires Utf8(a) == Utf8(b)
    ensures a == b
  {
    if a != [] && b != [] {
      var x, y := Utf8Char(a[0]), Utf8Char(b[0]);
      assert x[0] == Utf8(a)[0] == y[0];
      assert x == Utf8(a)[..|x|] == y;
      Utf8CharDecodes(a[0]);
      Utf8CharDecodes(b[0]);
      assert Utf8(a[1..]) == Utf8(a)[|x|..] == Utf8(b[1..]);
      Utf8Injective(a[1..], b[1..]);
      assert a == [a[0]] + a[1..] && b == [b[0]] + b[1..];
    }
  }

  /** A string of ASCII characters takes one byte per character. */
  lemma {:induction false} Utf8Ascii(s: string)
    requires forall i :: 0 <= i < |s| ==> s[i] as int < 0x80
    ensures |Utf8(s)| == |s|
  {
    if s != [] {
      Utf8Ascii(s[1..]);
    }
  }

  /** Bytes none of which is zero. */
  predicate ZeroFree(b: seq<Byte>) {
    forall i :: 0 <= i < |b| ==> b[i] != 0
  }

  /** A string with no U+0000 character. */
  predicate NulFree(s: string) {
    forall i :: 0 <= i < |s| ==> s[i] != '\0'
  }

  /** `trim` removes whitespace only, so it keeps a string NUL-free. */
  lemma {:induction false} TrimKeepsNulFree(s: string)
    requires NulFree(s)
    ensures NulFree(Trim(s))
  {
    var r := Trim(s);
    var i :| 0 <= i <= |s| - |r| && s[i..][..|r|] == r;
    SliceNulFree(s, i, r);
  }

  /** Any run of characters taken from a NUL-free string is NUL-free. */
  lemma {:induction false} SliceNulFree(s: string, i: nat, r: string)
    requires NulFree(s) && i <= |s| - |r| && s[i..][..|r|] == r
    ensures NulFree(r)
  {
    forall k | 0 <= k < |r| ensures r[k] != '\0' {
      assert r[k] == s[i + k];
    }
  }

  /** Only U+0000 encodes to a zero byte. */
  lemma {:induction false} Utf8NulFree(s: string)
    requires NulFree(s)
    ensures ZeroFree(Utf8(s))
  {
    if s != [] {
      Utf8NulFree(s[1..]);
    }
  }

  lemma {:induction false} Utf8Snoc(s: string, c: char)
    ensures Utf8(s + [c]) == Utf8(s) + Utf8Char(c)
  {
    Utf8Append(s, [c]);
    assert [c][1..] == [];
  }

  /** The encoding ends with that of the last character. */
  lemma {:induction false} Utf8Last(s: string)
    requires s != []
    ensures Utf8(s) == Utf8(s[..|s| - 1]) + Utf8Char(s[|s| - 1])
  {
    var init, x := s[..|s| - 1], s[|s| - 1];
    assert init + [x] == s;
    Utf8Snoc(init, x);
  }

  /** UTF-8 is self-synchronising: when the encoding of `q` ends with the
      bytes of `x`, the last character of `q` is `x`. */
  lemma {:induction false} Utf8EndsWithChar(q: string, x: char)
    requires EndsWith(Utf8(q), Utf8Char(x))
    ensures q != [] && q[|q| - 1] == x
  {
    assert q != [];
    var y := q[|q| - 1];
    Utf8Last(q);
    SuffixOfAppend(Utf8(q[..|q| - 1]), Utf8Char(y));
    SameCharSuffix(Utf8(q), Utf8Char(x), Utf8Char(y));
    Utf8CharDecodes(x);
    Utf8CharDecodes(y);
  }

  /** `e` ends with the bytes `f`. */
  predicate EndsWith(e: seq<Byte>, f: seq<Byte>) {
    |f| <= |e| && e[|e| - |f|..] == f
  }

  /** `e` ends with a zero byte and then the bytes `f`. */
  predicate EndsWithZeroThen(e: seq<Byte>, f: seq<Byte>) {
    |f| < |e| && e[|e| - |f|..] == f && e[|e| - |f| - 1] == 0
  }

  /** The end of a concatenation is its second part. */
  lemma {:induction false} SuffixOfAppend(a: seq<Byte>, b: seq<Byte>)
    ensures EndsWith(a + b, b)
  {
  }

  /** Two ends of `e` that each hold one whole character's bytes (a lead
      byte, then continuation bytes only) are the same bytes. */
  lemma {:induction false} SameCharSuffix(e: seq<Byte>, c: seq<Byte>, d: seq<Byte>)
    requires c != [] && (c[0] < 0x80 || 0xC0 <= c[0]) && forall k :: 1 <= k < |c| ==> 0x80 <= c[k] < 0xC0
    requires d != [] && (d[0] < 0x80 || 0xC0 <= d[0]) && forall k :: 1 <= k < |d| ==> 0x80 <= d[k] < 0xC0
    requires EndsWith(e, c) && EndsWith(e, d)
    ensures c == d
  {
    if |c| < |d| {
      assert false;
    } else if |d| < |c| {
      assert false;
    }
  }

  /** The first `n` bytes of `s` read round and round. */
  function Cycle(s: seq<Byte>, n: nat): (r: seq<Byte>)
    requires s != []
    ensures |r| == n
    decreases n
  {
    if n <= |s| then s[..n] else s + Cycle(s, n - |s|)
  }

  /** The cycle starts with `s` itself. */
  lemma {:induction false} CycleStart(s: seq<Byte>, n: nat)
    requires s != []
    ensures forall i :: 0 <= i < n && i < |s| ==> Cycle(s, n)[i] == s[i]
  {
    if n > |s| {
      assert Cycle(s, n) == s + Cycle(s, n - |s|);
    }
  }

  /** The cycle repeats every `|s|` bytes. */
  lemma {:induction false} CyclePeriodic(s: seq<Byte>, n: nat, i: nat)
    requires s != [] && |s| <= i < n
    ensures Cycle(s, n)[i] == Cycle(s, n)[i - |s|]
    decreases n
  {
    var t := Cycle(s, n - |s|);
    assert Cycle(s, n) == s + t;
    if i - |s| >= |s| {
      CyclePeriodic(s, n - |s|, i - |s|);
    }
  }

  /** A shorter read of the cycle is a prefix of a longer one. */
  lemma {:induction false} CyclePrefix(s: seq<Byte>, n: nat, k: nat)
    requires s != [] && k <= n
    ensures Cycle(s, n)[..k] == Cycle(s, k)
    decreases n
  {
    if k > |s| {
      CyclePrefix(s, n - |s|, k - |s|);
      assert Cycle(s, n)[..k] == s + Cycle(s, n - |s|)[..k - |s|];
    }
  }

  /** Reading `s` twice over is reading `s`. */
  lemma {:induction false} CycleTwice(s: seq<Byte>, n: nat)
    requires s != []
    ensures Cycle(s + s, n) == Cycle(s, n)
    decreases n
  {
    if n > 2 * |s| {
      CycleTwice(s, n - 2 * |s|);
      assert Cycle(s, n) == s + Cycle(s, n - |s|);
      assert Cycle(s, n - |s|) == s + Cycle(s, n - 2 * |s|);
    } else if n > |s| {
      assert Cycle(s, n) == s + s[..n - |s|];
      assert (s + s)[..n] == s + s[..n - |s|];
    }
  }

  /** `j` copies of `s`, one after the other. */
  function Repeat<T>(s: seq<T>, j: nat): seq<T>
  {
    if j == 0 then [] else s + Repeat(s, j - 1)
  }

  /** Copies of `s` start and end with `s`. */
  lemma {:induction false} RepeatEnds<T>(s: seq<T>, j: nat)
    requires j > 0
    ensures |s| <= |Repeat(s, j)|
    ensures Repeat(s, j)[..|s|] == s && Repeat(s, j)[|Repeat(s, j)| - |s|..] == s
  {
    if j > 1 {
      RepeatEnds(s, j - 1);
    }
  }

  lemma {:induction false} RepeatLength<T>(s: seq<T>, j: nat)
    ensures |Repeat(s, j)| == j * |s|
  {
    if j > 0 {
      RepeatLength(s, j - 1);
      assert Repeat(s, j) == s + Repeat(s, j - 1);
      assert j * |s| == |s| + (j - 1) * |s|;
    }
  }

  lemma {:induction false} Utf8Repeat(s: string, j: nat)
    ensures Utf8(Repeat(s, j)) == Repeat(Utf8(s), j)
  {
    if j > 0 {
      assert Repeat(s, j) == s + Repeat(s, j - 1);
      Utf8Append(s, Repeat(s, j - 1));
      Utf8Repeat(s, j - 1);
    }
  }

  /** Taking a prefix of a concatenation. */
  lemma {:induction false} TakeOfAppend<T>(a: seq<T>, b: seq<T>, n: nat)
    requires n <= |a| + |b|
    ensures n <= |a| ==> (a + b)[..n] == a[..n]
    ensures |a| <= n ==> (a + b)[..n] == a + b[..n - |a|]
  {
  }

  /** Reading the cycle is reading copies of `s` one after the other. */
  lemma {:induction false} CycleOfRepeat(s: seq<Byte>, j: nat, n: nat)
    requires s != [] && n <= |Repeat(s, j)|
    ensures Cycle(s, n) == Repeat(s, j)[..n]
  {
    if n > 0 {
      var rest := Repeat(s, j - 1);
      assert j > 0 && Repeat(s, j) == s + rest;
      if n > |s| {
        CycleOfRepeat(s, j - 1, n - |s|);
        TakeOfAppend(s, rest, n);
      } else {
        TakeOfAppend(s, rest, n);
      }
    }
  }

  /** When `s` is text followed by its only zero byte, a read of the cycle
      that ends in a zero ends with the whole of `s`, and (unless it is `s`
      itself) the byte before that copy is a zero too. */
  lemma {:induction false} CycleEndsWithCopy(s: seq<Byte>, n: nat)
    requires s != [] && s[|s| - 1] == 0 && ZeroFree(s[..|s| - 1])
    requires 0 < n && Cycle(s, n)[n - 1] == 0
    ensures |s| <= n && Cycle(s, n)[n - |s|..] == s
    ensures n == |s| || Cycle(s, n)[n - |s| - 1] == 0
    decreases n
  {
    if n <= |s| {
      assert s[n - 1] == 0;
    } else {
      var t := Cycle(s, n - |s|);
      assert Cycle(s, n) == s + t;
      CycleEndsWithCopy(s, n - |s|);
    }
  }

  /** The 72 bytes bcrypt keys on: the UTF-8 password and a NUL, read round
      and round. */
  function Key(password: string): (k: seq<Byte>)
    ensures |k| == KeyBytes
    ensures forall i :: 0 <= i < KeyBytes && i < |Utf8(password)| ==> k[i] == Utf8(password)[i]
    ensures |Utf8(password)| < KeyBytes ==> k[|Utf8(password)|] == 0
  {
    CycleStart(Utf8(password) + [0], KeyBytes);
    Cycle(Utf8(password) + [0], KeyBytes)
  }

  /** A bcrypt digest, standing for the key bytes it was computed from. */
  datatype PasswordHash = Bcrypt(key: seq<Byte>)

  /** `bcrypt.hash(password, salt)`; `bcrypt.compare(password, h)` holds
      exactly when `Hash(password) == h`. */
  function Hash(password: string): PasswordHash {
    Bcrypt(Key(password))
  }

  /** Below 72 bytes, a password without U+0000 shares its digest with no
      other such password: the NUL that ends the key stream marks where the
      password ends. */
  lemma {:induction false} ShortPasswordDigest(p: string, q: string)
    requires |Utf8(p)| < KeyBytes && NulFree(p) && NulFree(q)
    ensures Hash(q) == Hash(p) <==> q == p
  {
    if Hash(q) == Hash(p) {
      var n, m := |Utf8(p)|, |Utf8(q)|;
      Utf8NulFree(p);
      Utf8NulFree(q);
      if n == m {
        assert Utf8(p) == Utf8(q) by {
          forall i | 0 <= i < n ensures Utf8(p)[i] == Utf8(q)[i] {
            assert Key(p)[i] == Key(q)[i];
          }
        }
        Utf8Injective(p, q);
      }
    }
  }

  /** The NUL terminator is why `ShortPasswordDigest` needs NUL-free
      passwords: a password, a U+0000 and the password again give the key
      of the password alone. */
  lemma {:induction false} NulJoinCollides(p: string)
    ensures p + ['\0'] + p != p
    ensures Hash(p + ['\0'] + p) == Hash(p)
  {
    var s := Utf8(p) + [0];
    Utf8Append(p + ['\0'], p);
    Utf8Snoc(p, '\0');
    assert Utf8(p + ['\0'] + p) + [0] == s + s;
    CycleTwice(s, KeyBytes);
  }

  /** Whatever follows a password whose encoding fills the key is ignored. */
  lemma {:induction false} DigestIgnoresPastKey(p: string, extra: string)
    requires |Utf8(p)| >= KeyBytes
    ensures Hash(p + extra) == Hash(p)
  {
    Utf8Append(p, extra);
    assert Key(p + extra) == Key(p) by {
      forall i | 0 <= i < KeyBytes ensures Key(p + extra)[i] == Key(p)[i] {
        assert Utf8(p + extra)[i] == Utf8(p)[i];
      }
    }
  }

  /** Enough copies of a password, each followed by U+0000, fill the key
      with exactly the bytes the password's own key cycles through. */
  lemma {:induction false} RepeatedNulCollides(p: string, j: nat)
    requires j * (|Utf8(p)| + 1) >= KeyBytes
    ensures Hash(Repeat(p + ['\0'], j)) == Hash(p)
  {
    var u := p + ['\0'];
    var x := Repeat(u, j);
    var s := Utf8(p) + [0];
    assert Utf8(u) == s by {
      Utf8Snoc(p, '\0');
    }
    var e := Utf8(x);
    assert e == Repeat(s, j) by {
      Utf8Repeat(u, j);
    }
    RepeatLength(s, j);
    CycleOfRepeat(s, j, KeyBytes);
    assert Key(x) == e[..KeyBytes] by {
      assert (e + [0])[..KeyBytes] == e[..KeyBytes];
    }
  }

  /** NUL-terminated copies of a password that does not start with
      whitespace are a trimmed text: U+0000 is not whitespace. */
  lemma {:induction false} NulCopiesTrimmed(p: string, j: nat)
    requires p != [] && !IsSpace(p[0]) && j > 0
    ensures IsTrimmed(Repeat(p + ['\0'], j))
  {
    var u := p + ['\0'];
    var x := Repeat(u, j);
    RepeatEnds(u, j);
    assert x[0] == x[..|u|][0] == p[0];
    assert x[|x| - 1] == x[|x| - |u|..][|u| - 1] == '\0';
  }

  /** What a login hashes for such copies, after trimming them, is the
      digest of the password itself. */
  lemma {:induction false} TrimmedNulCopiesCollide(p: string, j: nat)
    requires p != [] && !IsSpace(p[0])
    requires j * (|Utf8(p)| + 1) >= KeyBytes
    ensures Repeat(p + ['\0'], j) != []
    ensures Hash(Trim(Repeat(p + ['\0'], j))) == Hash(p)
  {
    PositiveFactor(j, |Utf8(p)| + 1, KeyBytes);
    NulCopiesTrimmed(p, j);
    TrimOfTrimmed(Repeat(p + ['\0'], j));
    RepeatedNulCollides(p, j);
  }

  lemma PositiveFactor(a: nat, b: int, c: int)
    requires a * b >= c > 0
    ensures a > 0
  {
  }

  /** A password with leading whitespace has a digest no trimmed password
      has, whatever its length: the key starts with the password's first
      character. */
  lemma {:induction false} LeadingSpaceDigest(p: string, q: string)
    requires p != [] && IsSpace(p[0])
    requires IsTrimmed(q)
    ensures Hash(q) != Hash(p)
  {
    if Hash(q) == Hash(p) {
      var c := Utf8Char(p[0]);
      KeyStartsWithChar(p);
      assert Key(p)[0] == c[0] != 0;
      if q != [] {
        var d := Utf8Char(q[0]);
        KeyStartsWithChar(q);
        assert c[0] == d[0];
        Utf8CharDecodes(p[0]);
        Utf8CharDecodes(q[0]);
      }
    }
  }

  /** The key starts with the bytes of the password's first character. */
  lemma {:induction false} KeyStartsWithChar(p: string)
    requires p != []
    ensures Key(p)[..|Utf8Char(p[0])|] == Utf8Char(p[0])
  {
    var c, s := Utf8Char(p[0]), Utf8(p) + [0];
    assert Utf8(p) == c + Utf8(p[1..]);
    CyclePrefix(s, KeyBytes, |c|);
    assert s[..|c|] == c;
  }

  /** Below the key length, the key starts with the whole encoding and its
      terminating zero. */
  lemma {:induction false} ShortKeyStart(p: string)
    requires |Utf8(p)| < KeyBytes
    ensures Key(p)[..|Utf8(p)| + 1] == Utf8(p) + [0]
  {
    var s := Utf8(p) + [0];
    CyclePrefix(s, KeyBytes, |s|);
  }

  /** When a zero-free `f` and a zero, read round and round, give `e` and a
      zero, then `e` ends with `f`, and either they are equal or a zero comes
      just before that copy. */
  lemma {:induction false} CycleReadBack(e: seq<Byte>, f: seq<Byte>)
    requires ZeroFree(f) && Cycle(f + [0], |e| + 1) == e + [0]
    ensures EndsWith(e, f)
    ensures |f| == |e| || EndsWithZeroThen(e, f)
  {
    var s, t := f + [0], e + [0];
    assert s[..|s| - 1] == f;
    CycleEndsWithCopy(s, |t|);
    var k := |e| - |f|;
    assert t[k..] == s && (k == 0 || t[k - 1] == 0);
    assert e[k..] == t[k..][..|f|];
    assert k == 0 || e[k - 1] == t[k - 1];
  }

  /** When `e`, that is `a + c`, ends with the zero-free `c`, and also with
      a zero followed by `f`, then `f` is long enough to end with `c` too. */
  lemma {:induction false} ZeroBeforeSuffix(e: seq<Byte>, a: seq<Byte>, c: seq<Byte>, f: seq<Byte>)
    requires e == a + c && ZeroFree(c) && EndsWithZeroThen(e, f)
    ensures EndsWith(f, c)
  {
    if |f| < |c| {
      assert false;
    }
    assert forall i :: |f| - |c| <= i < |f| ==> f[i] == e[|e| - |f| + i];
  }

  /** When the encoding of `p` ends with a zero byte and then the encoding
      of `q`, the last character of `p` (not U+0000) is the last of `q`. */
  lemma {:induction false} LastCharCarries(p: string, q: string)
    requires p != [] && p[|p| - 1] != '\0'
    requires EndsWithZeroThen(Utf8(p), Utf8(q))
    ensures q != [] && q[|q| - 1] == p[|p| - 1]
  {
    var x := p[|p| - 1];
    Utf8Last(p);
    ZeroBeforeSuffix(Utf8(p), Utf8(p[..|p| - 1]), Utf8Char(x), Utf8(q));
    Utf8EndsWithChar(q, x);
  }

  /** A password shorter than the key with trailing whitespace has a digest
      no trimmed NUL-free password has. If the two keys agreed, the zero
      after the padded password would make its encoding end with that of
      the trimmed one, so the trimmed one would end with the padding. */
  lemma {:induction false} TrailingSpaceDigest(p: string, q: string)
    requires p != [] && IsSpace(p[|p| - 1]) && |Utf8(p)| < KeyBytes
    requires IsTrimmed(q) && NulFree(q)
    ensures Hash(q) != Hash(p)
  {
    if Hash(q) == Hash(p) {
      Utf8NulFree(q);
      ShortKeysReadBack(Utf8(p), Utf8(q));
      if |Utf8(p)| == |Utf8(q)| {
        Utf8Injective(p, q);
        assert false;
      } else {
        LastCharCarries(p, q);
      }
    }
  }

  /** When the cyclic keys of a short `e` and of a zero-free `f` agree,
      `e` ends with `f`, and either they are equal or a zero comes just
      before that copy. */
  lemma {:induction false} ShortKeysReadBack(e: seq<Byte>, f: seq<Byte>)
    requires |e| < KeyBytes && ZeroFree(f)
    requires Cycle(e + [0], KeyBytes) == Cycle(f + [0], KeyBytes)
    ensures EndsWith(e, f)
    ensures |f| == |e| || EndsWithZeroThen(e, f)
  {
    CyclePrefix(e + [0], KeyBytes, |e| + 1);
    CyclePrefix(f + [0], KeyBytes, |e| + 1);
    assert Cycle(e + [0], |e| + 1) == e + [0];
    CycleReadBack(e, f);
  }
}
