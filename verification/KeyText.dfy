/** How a key given by a user becomes a 24-byte key (src/util.cpp, processKey in src/database.cpp). */
module KeyText {
  import opened Basics
  import opened SlottedPage
  import opened KeyOrder

  /** isspace in the C locale: tab, line feed, vertical tab, form feed, carriage return, space. */
  predicate IsSpace(b: Byte) {
    9 <= b <= 13 || b == 32
  }

  function LTrim(s: seq<Byte>): seq<Byte> {
    if s != [] && IsSpace(s[0]) then LTrim(s[1..]) else s
  }

  function RTrim(s: seq<Byte>): (t: seq<Byte>)
    ensures |t| <= |s| && t == s[..|t|]
    ensures t != [] ==> !IsSpace(t[|t| - 1])
  {
    if s != [] && IsSpace(s[|s| - 1]) then RTrim(s[..|s| - 1]) else s
  }

  function Trim(s: seq<Byte>): seq<Byte> {
    RTrim(LTrim(s))
  }

  /** Trimmed, and cut or filled up with zero bytes to 24 bytes. */
  function ProcessKey(key: seq<Byte>): (k: seq<Byte>)
    ensures |k| == RECORD_KEY_SIZE
  {
    var t := Trim(key);
    if |t| > RECORD_KEY_SIZE then t[..RECORD_KEY_SIZE] else t + Zeros(RECORD_KEY_SIZE - |t|)
  }

  /** The text starts and ends with something that is not whitespace. */
  predicate Tight(s: seq<Byte>) {
    s != [] ==> !IsSpace(s[0]) && !IsSpace(s[|s| - 1])
  }

  lemma {:induction false} LTrimStart(s: seq<Byte>)
    ensures LTrim(s) != [] ==> !IsSpace(LTrim(s)[0])
    ensures |LTrim(s)| <= |s| && (IsBytes(s) ==> IsBytes(LTrim(s)))
  {
    if s != [] && IsSpace(s[0]) {
      LTrimStart(s[1..]);
    }
  }

  /** Trimming leaves no whitespace at either end, and changes nothing if there was none. */
  lemma TrimTight(s: seq<Byte>)
    ensures Tight(Trim(s))
    ensures Tight(s) <==> Trim(s) == s
    ensures |Trim(s)| <= |s| && (IsBytes(s) ==> IsBytes(Trim(s)))
  {
    LTrimStart(s);
  }

  /** Everything in front of i and from j on is whitespace, and what is in between has none at either end. */
  predicate Strips(s: seq<Byte>, i: int, j: int) {
    0 <= i <= j <= |s| && Tight(s[i..j]) && forall x :: 0 <= x < |s| && (x < i || j <= x) ==> IsSpace(s[x])
  }

  lemma {:induction false} LTrimStrips(s: seq<Byte>) returns (i: nat)
    ensures i <= |s| && LTrim(s) == s[i..] && forall x :: 0 <= x < i ==> IsSpace(s[x])
  {
    i := 0;
    if s != [] && IsSpace(s[0]) {
      i := LTrimStrips(s[1..]);
      assert forall x :: 0 < x < i + 1 ==> s[x] == s[1..][x - 1];
      i := i + 1;
    }
  }

  lemma {:induction false} RTrimStrips(s: seq<Byte>)
    ensures forall x :: |RTrim(s)| <= x < |s| ==> IsSpace(s[x])
  {
    if s != [] && IsSpace(s[|s| - 1]) {
      RTrimStrips(s[..|s| - 1]);
    }
  }

  /** Trimming takes away the whitespace at both ends, all of it and nothing else. */
  lemma TrimExactly(s: seq<Byte>, t: seq<Byte>)
    ensures Trim(s) == t <==> exists i, j :: Strips(s, i, j) && t == s[i..j]
    ensures exists i, j :: Strips(s, i, j) && Trim(s) == s[i..j]
  {
    TrimTight(s);
    var i := LTrimStrips(s);
    RTrimStrips(LTrim(s));
    var j := i + |Trim(s)|;
    assert forall x :: j <= x < |s| ==> s[x] == LTrim(s)[x - i];
    assert Strips(s, i, j) && Trim(s) == s[i..j];
    forall x, y | Strips(s, x, y) ensures s[x..y] == s[i..j] {
      StripsOnce(s, i, j, x, y);
    }
  }

  /** There is only one way to strip a text. */
  lemma StripsOnce(s: seq<Byte>, i: int, j: int, x: int, y: int)
    requires Strips(s, i, j) && Strips(s, x, y)
    ensures s[i..j] == s[x..y]
  {
    if i < j {
      assert !IsSpace(s[i]) && !IsSpace(s[j - 1]);
    }
    if x < y {
      assert !IsSpace(s[x]) && !IsSpace(s[y - 1]);
    }
  }

  /** k holds what stands between i and j, cut off after 24 bytes or filled up with zero bytes. */
  predicate CutsAndFills(key: seq<Byte>, i: int, j: int, k: seq<Byte>) {
    && 0 <= i <= j <= |key| && |k| == RECORD_KEY_SIZE
    && forall x :: 0 <= x < RECORD_KEY_SIZE ==> k[x] == if i + x < j then key[i + x] else 0
  }

  /** Whatever way the key is stripped, its processed form is what the strip leaves, cut off or filled up. */
  lemma CutOnce(key: seq<Byte>, i: int, j: int, k: seq<Byte>)
    requires Strips(key, i, j)
    ensures CutsAndFills(key, i, j, k) <==> k == ProcessKey(key)
  {
    TrimExactly(key, key[i..j]);
    var t, p := key[i..j], ProcessKey(key);
    assert Trim(key) == t;
    forall x | 0 <= x < RECORD_KEY_SIZE ensures p[x] == if i + x < j then key[i + x] else 0 {
      assert p[x] == if x < |t| then t[x] else 0;
    }
  }

  /** A processed key is the key without the whitespace at its ends, cut off or filled up. */
  lemma ProcessExactly(key: seq<Byte>, k: seq<Byte>)
    ensures ProcessKey(key) == k <==> exists i, j :: Strips(key, i, j) && CutsAndFills(key, i, j, k)
  {
    TrimExactly(key, Trim(key));
    forall i, j | Strips(key, i, j) ensures CutsAndFills(key, i, j, k) <==> k == ProcessKey(key) {
      CutOnce(key, i, j, k);
    }
  }

  /** A processed key is a key for the index, and never starts with whitespace. */
  lemma ProcessedKey(key: seq<Byte>)
    requires IsBytes(key)
    ensures IsKey(ProcessKey(key)) && !IsSpace(ProcessKey(key)[0])
  {
    TrimTight(key);
  }

  /** Processing changes nothing exactly if the key has 24 bytes and no whitespace at either end. */
  lemma FixedExactly(k: seq<Byte>)
    ensures ProcessKey(k) == k <==> |k| == RECORD_KEY_SIZE && Tight(k)
  {
    TrimTight(k);
    var t := Trim(k);
    assert t != [] ==> ProcessKey(k)[0] == t[0];
    assert |t| < RECORD_KEY_SIZE ==> ProcessKey(k)[RECORD_KEY_SIZE - 1] == 0;
  }

  /** Whether processing cuts the key right after whitespace. */
  predicate CutAfterSpace(key: seq<Byte>) {
    |Trim(key)| > RECORD_KEY_SIZE && IsSpace(Trim(key)[RECORD_KEY_SIZE - 1])
  }

  /** Processing a key again changes it exactly if the key was cut right after whitespace. */
  lemma IdempotentExactly(key: seq<Byte>)
    ensures ProcessKey(ProcessKey(key)) == ProcessKey(key) <==> !CutAfterSpace(key)
  {
    TrimTight(key);
    FixedExactly(ProcessKey(key));
  }

  /** Processing twice is always enough. */
  lemma TwiceIsEnough(key: seq<Byte>)
    ensures ProcessKey(ProcessKey(ProcessKey(key))) == ProcessKey(ProcessKey(key))
  {
    var k := ProcessKey(key);
    TrimTight(k);
    IdempotentExactly(k);
  }

  lemma ProcessedTwice(key: seq<Byte>)
    requires IsBytes(key)
    ensures var k := ProcessKey(ProcessKey(key)); IsBytes(ProcessKey(key)) && IsKey(k) && ProcessKey(k) == k
  {
    ProcessedKey(key);
    ProcessedKey(ProcessKey(key));
    TwiceIsEnough(key);
  }

  /** A key that is not stored under its processed form: 23 letters, a space and one more letter. */
  lemma CutExample()
    ensures var key := seq(23, _ => 97) + [32, 97];
            && CutAfterSpace(key)
            && ProcessKey(key) == seq(23, _ => 97) + [32]
            && ProcessKey(ProcessKey(key)) == seq(23, _ => 97) + [0]
  {
    var a: seq<Byte> := seq(23, _ => 97);
    var key := a + [32, 97];
    assert Tight(key);
    TrimTight(key);
    var k := a + [32];
    assert key[..24] == k;
    assert !IsSpace(k[0]);
    assert LTrim(k) == k;
    assert k[..23] == a;
    assert RTrim(k) == RTrim(a) == a;
    assert Zeros(1) == [0];
  }
}
