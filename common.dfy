/** Values that every part of the e-mail library shares: Java's null as an
    Option, thrown exceptions as a Result, Java's 32-bit int arithmetic,
    String.hashCode and the few java.lang.String queries the library uses. */
module Common {

  /** A Java reference that may be null. */
  datatype Option<T> = None | Some(value: T)

  /** A call that either returns a value or throws. */
  datatype Result<T, E> = Ok(value: T) | Err(error: E)

  /** A thrown Java exception: its class name and what getMessage() returns. */
  datatype JavaException = JavaException(className: string, message: Option<string>)

  const NPE_CLASS: string := "java.lang.NullPointerException"

  /** A NullPointerException as the JVM throws it on a null dereference (no message). */
  function NullDeref(): JavaException
  {
    JavaException(NPE_CLASS, None)
  }

  /** Java's string concatenation of a possibly-null String: null renders as "null". */
  function Text(s: Option<string>): (r: string)
    ensures s.Some? ==> r == s.value
    ensures s.None? ==> r == "null"
  {
    match s
    case Some(v) => v
    case None => "null"
  }

  /** Throwable.toString(): the class name, then ": " and the message when there is one. */
  function ExceptionText(e: JavaException): (r: string)
    ensures e.className <= r
    ensures e.message.None? ==> r == e.className
    ensures e.message.Some? ==> r == e.className + ": " + e.message.value
  {
    match e.message
    case None => e.className
    case Some(m) => e.className + ": " + m
  }

  // ---------------------------------------------------------------------------
  // Java int arithmetic

  const TWO_31: int := 0x8000_0000
  const TWO_32: int := 0x1_0000_0000

  predicate IsInt32(x: int)
  {
    -TWO_31 <= x < TWO_31
  }

  /** The Java int a mathematical integer wraps to (two's complement, 32 bits). */
  function Int32(x: int): (r: int)
    ensures IsInt32(r)
    ensures IsInt32(x) ==> r == x
  {
    (x + TWO_31) % TWO_32 - TWO_31
  }

  /** Two integers that differ by a multiple of 2^32 wrap to the same int. */
  lemma Int32Congruent(x: int, y: int)
    requires (x - y) % TWO_32 == 0
    ensures Int32(x) == Int32(y)
  {
    var k := (x - y) / TWO_32;
    assert x == y + k * TWO_32;
    assert (x + TWO_31) % TWO_32 == (y + TWO_31) % TWO_32;
  }

  /** Wrapping after every addition gives the same int as wrapping once at the end:
      the reason a Java accumulation `h += v` equals the wrapped mathematical sum. */
  lemma Int32AddWrapped(a: int, b: int)
    ensures Int32(Int32(a) + b) == Int32(a + b)
  {
    Int32Congruent(Int32(a) + b, a + b);
  }

  /** java.lang.String.hashCode: h = 31*h + c over the characters, in int arithmetic.
      Characters are taken as their code points (the same as Java's UTF-16 code
      units for every character of the Basic Multilingual Plane). */
  function StringHash(s: string): (h: int)
    ensures IsInt32(h)
    ensures s == [] ==> h == 0
  {
    if s == [] then 0 else Int32(31 * StringHash(s[..|s| - 1]) + s[|s| - 1] as int)
  }

  // ---------------------------------------------------------------------------
  // java.lang.String queries

  predicate StartsWith(s: string, prefix: string)
  {
    prefix <= s
  }

  predicate EndsWith(s: string, suffix: string)
  {
    |suffix| <= |s| && s[|s| - |suffix|..] == suffix
  }

  /** String.contains: `probe` occurs somewhere in `s` as a contiguous substring. */
  predicate Contains(s: string, probe: string)
    decreases |s|
  {
    probe <= s || (|s| > 0 && Contains(s[1..], probe))
  }

  /** Whatever a string contains, any extension of it on the left contains too. */
  lemma {:induction false} ContainsInSuffix(prefix: string, s: string, probe: string)
    requires Contains(s, probe)
    ensures Contains(prefix + s, probe)
    decreases |prefix|
  {
    if prefix != [] {
      ContainsInSuffix(prefix[1..], s, probe);
      assert (prefix + s)[1..] == prefix[1..] + s;
      assert |prefix + s| > 0 && Contains((prefix + s)[1..], probe);
    } else {
      assert prefix + s == s;
    }
  }

  /** Whatever a string contains, any extension of it on the right contains too. */
  lemma {:induction false} ContainsInPrefix(s: string, suffix: string, probe: string)
    requires Contains(s, probe)
    ensures Contains(s + suffix, probe)
    decreases |s|
  {
    if probe <= s {
      assert probe <= s + suffix;
    } else {
      ContainsInPrefix(s[1..], suffix, probe);
      assert (s + suffix)[1..] == s[1..] + suffix;
    }
  }

  /** The text before the first occurrence of `c` (all of `s` when there is none):
      `s.substring(0, s.indexOf(c))` for a string that contains `c`. */
  function Before(s: string, c: char): (r: string)
    ensures r <= s
    ensures c !in r
    ensures c in s ==> |r| < |s| && s[|r|] == c
    ensures c !in s ==> r == s
  {
    if s == [] then []
    else if s[0] == c then []
    else [s[0]] + Before(s[1..], c)
  }

  /** Text that does not contain `c`, followed by `c`, is cut back to itself by Before. */
  lemma {:induction false} BeforeMarker(name: string, c: char, rest: string)
    requires c !in name
    ensures Before(name + [c] + rest, c) == name
    decreases |name|
  {
    if name != [] {
      BeforeMarker(name[1..], c, rest);
      assert (name + [c] + rest)[1..] == name[1..] + [c] + rest;
    }
  }
}
