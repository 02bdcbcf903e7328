/** NativeArray/Chaocipher: Byrne's Chaocipher encoder. Each plaintext character is looked up in
    the right (plaintext) alphabet, the left (ciphertext) alphabet character at the same index is
    emitted, and both alphabets are permuted: rotated so the found index comes to the front (or,
    for the right alphabet, one past it), then shifted so that one character moves to the nadir.
    The functions give the meaning; the methods follow the Java code on arrays. */
module Chaocipher {
  import opened Runtime

  /** The least index of `c` in `s`, or -1 when `c` does not occur. */
  function Find(s: seq<char>, c: char): (r: int)
    ensures -1 <= r < |s|
    ensures r >= 0 ==> s[r] == c && forall j :: 0 <= j < r ==> s[j] != c
    ensures r == -1 <==> forall j :: 0 <= j < |s| ==> s[j] != c
  {
    if s == [] then -1
    else if s[0] == c then 0
    else
      var t := Find(s[1..], c);
      if t == -1 then -1 else t + 1
  }

  /** `s` rotated leftward by `places` places; rotating by a whole turn changes nothing. */
  function Rotated(s: seq<char>, places: nat): (r: seq<char>)
    requires |s| > 0
    ensures |r| == |s|
    decreases places
  {
    if places < |s| then s[places..] + s[..places] else Rotated(s, places - |s|)
  }

  /** The rotation by `places` is the rotation by `places % |s|`, the Java `realPlaces`. */
  lemma {:induction false} RotatedMod(s: seq<char>, places: nat)
    requires |s| > 0
    ensures 0 <= places % |s| < |s|
    ensures Rotated(s, places) == s[places % |s|..] + s[..places % |s|]
    decreases places
  {
    if places < |s| {
      ModUnique(places, |s|, 0, places);
    } else {
      RotatedMod(s, places - |s|);
      var q := (places - |s|) / |s|;
      assert places - |s| == q * |s| + (places - |s|) % |s|;
      ModUnique(places, |s|, q + 1, (places - |s|) % |s|);
    }
  }

  /** Position `i` of the rotation holds the character `places` positions further along `s`,
      counted around the end. */
  lemma RotatedAt(s: seq<char>, places: nat)
    requires |s| > 0
    ensures |Rotated(s, places)| == |s|
    ensures forall i :: 0 <= i < |s| ==> Rotated(s, places)[i] == s[(i + places) % |s|]
  {
    RotatedMod(s, places);
    var n := |s|;
    var p := places % n;
    var q := places / n;
    assert places == q * n + p;
    var r := Rotated(s, places);
    forall i | 0 <= i < n
      ensures r[i] == s[(i + places) % n]
    {
      if i < n - p {
        ModUnique(i + places, n, q, i + p);
        assert r[i] == s[p + i];
      } else {
        assert i + places == (q + 1) * n + (i + p - n);
        ModUnique(i + places, n, q + 1, i + p - n);
        assert r[i] == s[i - (n - p)];
      }
    }
  }

  /** `m % n` is the `x` in `m == k * n + x` with `0 <= x < n`. */
  lemma ModUnique(m: int, n: int, k: int, x: int)
    requires n > 0 && 0 <= x < n && m == k * n + x
    ensures m % n == x
  {
    var d := k - m / n;
    assert d * n == m % n - x;
    if d >= 1 {
      MulAtLeast(d, n);
    } else if d <= -1 {
      MulAtLeast(-d, n);
    }
  }

  lemma {:induction false} MulAtLeast(d: int, n: int)
    requires d >= 1 && n > 0
    ensures d * n >= n
    decreases d
  {
    if d > 1 {
      MulAtLeast(d - 1, n);
      assert d * n == (d - 1) * n + n;
    }
  }

  /** A rotation is a permutation. */
  lemma RotatedPermutes(s: seq<char>, places: nat)
    requires |s| > 0
    ensures multiset(Rotated(s, places)) == multiset(s)
  {
    RotatedMod(s, places);
    var p := places % |s|;
    assert s == s[..p] + s[p..];
  }

  /** `s` after `shiftFirstHalf(s, start)` with nadir `|s| / 2`: the characters after `start` up to
      the nadir move one place left and the character at `start` goes to the nadir. When `start`
      lies past the nadir the loop does not run and the nadir is overwritten. */
  function Shifted(s: seq<char>, start: nat): seq<char>
    requires start < |s|
  {
    var nadir := |s| / 2;
    if start <= nadir then s[..start] + s[start + 1..nadir + 1] + [s[start]] + s[nadir + 1..]
    else s[nadir := s[start]]
  }

  /** The three effects of the shift, when `start` is at most the nadir. */
  lemma ShiftedAt(s: seq<char>, start: nat)
    requires start <= |s| / 2 && start < |s|
    ensures |Shifted(s, start)| == |s|
    ensures forall i :: start <= i < |s| / 2 ==> Shifted(s, start)[i] == s[i + 1]
    ensures Shifted(s, start)[|s| / 2] == s[start]
    ensures forall i :: 0 <= i < |s| && (i < start || i > |s| / 2) ==> Shifted(s, start)[i] == s[i]
  {
  }

  /** Conversely, a sequence with those effects, or with only the nadir overwritten when `start`
      lies past it, is the shift. */
  lemma ShiftedFrom(s: seq<char>, t: seq<char>, start: nat)
    requires start < |s| == |t|
    requires t[|s| / 2] == s[start]
    requires forall j :: 0 <= j < |s| && j != |s| / 2 && (j < start || j > |s| / 2) ==> t[j] == s[j]
    requires forall j :: start <= j < |s| / 2 ==> t[j] == s[j + 1]
    ensures t == Shifted(s, start)
  {
    if start <= |s| / 2 {
      ShiftedAt(s, start);
    }
    assert forall j :: 0 <= j < |s| ==> t[j] == Shifted(s, start)[j];
  }

  /** The shift is a permutation when `start` is at most the nadir. */
  lemma ShiftedPermutes(s: seq<char>, start: nat)
    requires start <= |s| / 2 && start < |s|
    ensures multiset(Shifted(s, start)) == multiset(s)
  {
    var nadir := |s| / 2;
    assert s == s[..start] + [s[start]] + s[start + 1..nadir + 1] + s[nadir + 1..];
  }

  /** With three characters the nadir is 1, so the right alphabet's shift from index 2 copies the
      last character over the middle one and loses a character. */
  lemma ShiftDuplicatesAtThree()
    ensures Shifted("ABC", 2) == "ACC"
    ensures Shifted(Rotated("ABC", 1), 2) == "BAA"
    ensures multiset(Shifted("ABC", 2)) != multiset("ABC")
  {
    assert Rotated("ABC", 1) == "BCA";
    assert 'B' in multiset("ABC") && 'B' !in multiset("ACC");
  }

  /** The alphabets after enciphering the character found at index `k` of the right alphabet. */
  function Permute(left: seq<char>, right: seq<char>, k: nat): (seq<char>, seq<char>)
    requires |left| == |right| >= 3
  {
    (Shifted(Rotated(left, k), 1), Shifted(Rotated(right, k + 1), 2))
  }

  /** For alphabets of four or more characters each permutation step keeps both alphabets
      permutations of what they were, and of the same length. */
  lemma PermuteKeepsAlphabets(left: seq<char>, right: seq<char>, k: nat)
    requires |left| == |right| >= 4
    ensures |Permute(left, right, k).0| == |left| && |Permute(left, right, k).1| == |right|
    ensures multiset(Permute(left, right, k).0) == multiset(left)
    ensures multiset(Permute(left, right, k).1) == multiset(right)
  {
    RotatedPermutes(left, k);
    RotatedPermutes(right, k + 1);
    ShiftedPermutes(Rotated(left, k), 1);
    ShiftedPermutes(Rotated(right, k + 1), 2);
  }

  /** `encode(plaintext, left, right)`: the ciphertext, or IllegalArgumentException for the first
      plaintext character missing from the right alphabet current at that point. */
  function Encode(plaintext: string, left: seq<char>, right: seq<char>): Result<string>
    requires |left| == |right| >= 3
    decreases |plaintext|
  {
    if plaintext == [] then Ok([])
    else
      var k := Find(right, plaintext[0]);
      if k == -1 then Err(IllegalArgument)
      else
        var alphabets := Permute(left, right, k);
        match Encode(plaintext[1..], alphabets.0, alphabets.1)
        case Ok(rest) => Ok([left[k]] + rest)
        case Err(e) => Err(e)
  }

  /** `ciphertext` in front of the outcome of the rest of the encoding. */
  function Prepend(ciphertext: string, rest: Result<string>): Result<string> {
    match rest
    case Ok(s) => Ok(ciphertext + s)
    case Err(e) => Err(e)
  }

  /** One step of the encoding loop: with `ciphertext` produced so far, the outcome of encoding from
      position `i` fails when the character there is not in the right alphabet, and otherwise
      continues from position `i + 1` with one more ciphertext character and the permuted alphabets. */
  lemma EncodeStep(plaintext: string, i: nat, left: seq<char>, right: seq<char>, ciphertext: string)
    requires |left| == |right| >= 3 && i < |plaintext|
    ensures Find(right, plaintext[i]) == -1 ==> Prepend(ciphertext, Encode(plaintext[i..], left, right)) == Err(IllegalArgument)
    ensures Find(right, plaintext[i]) != -1 ==>
      var k := Find(right, plaintext[i]);
      var alphabets := Permute(left, right, k);
      Prepend(ciphertext, Encode(plaintext[i..], left, right))
        == Prepend(ciphertext + [left[k]], Encode(plaintext[i + 1..], alphabets.0, alphabets.1))
  {
    assert plaintext[i..][0] == plaintext[i] && plaintext[i..][1..] == plaintext[i + 1..];
    var k := Find(right, plaintext[i]);
    if k != -1 {
      var alphabets := Permute(left, right, k);
      match Encode(plaintext[i + 1..], alphabets.0, alphabets.1)
      case Ok(rest) =>
        assert ciphertext + ([left[k]] + rest) == (ciphertext + [left[k]]) + rest;
      case Err(e) =>
    }
  }

  /** Nothing in front changes nothing. */
  lemma PrependNothing(rest: Result<string>)
    ensures Prepend([], rest) == rest
  {
    if rest.Ok? {
      assert [] + rest.value == rest.value;
    }
  }

  /** A successful encoding has one ciphertext character per plaintext character, and the first
      is the left-alphabet character at the index of the first plaintext character in the right
      alphabet. */
  lemma {:induction false} EncodeLength(plaintext: string, left: seq<char>, right: seq<char>)
    requires |left| == |right| >= 3 && Encode(plaintext, left, right).Ok?
    ensures |Encode(plaintext, left, right).value| == |plaintext|
    ensures plaintext != [] ==> Encode(plaintext, left, right).value[0] == left[Find(right, plaintext[0])]
    decreases |plaintext|
  {
    if plaintext != [] {
      var k := Find(right, plaintext[0]);
      var alphabets := Permute(left, right, k);
      EncodeLength(plaintext[1..], alphabets.0, alphabets.1);
    }
  }

  /** For alphabets of four or more characters the encoding fails exactly when some plaintext
      character is not in the original right alphabet, since every step keeps the alphabet's
      characters. */
  lemma {:induction false} EncodeFailsIff(plaintext: string, left: seq<char>, right: seq<char>)
    requires |left| == |right| >= 4
    ensures Encode(plaintext, left, right).Err? <==> exists i :: 0 <= i < |plaintext| && plaintext[i] !in multiset(right)
    ensures Encode(plaintext, left, right).Err? ==> Encode(plaintext, left, right).error == IllegalArgument
    decreases |plaintext|
  {
    if plaintext != [] {
      var k := Find(right, plaintext[0]);
      if k == -1 {
        assert plaintext[0] !in multiset(right);
      } else {
        var alphabets := Permute(left, right, k);
        PermuteKeepsAlphabets(left, right, k);
        EncodeFailsIff(plaintext[1..], alphabets.0, alphabets.1);
        assert plaintext[0] in multiset(right);
        if exists i :: 0 <= i < |plaintext| && plaintext[i] !in multiset(right) {
          var i :| 0 <= i < |plaintext| && plaintext[i] !in multiset(right);
          assert plaintext[1..][i - 1] == plaintext[i];
        }
        if exists i :: 0 <= i < |plaintext[1..]| && plaintext[1..][i] !in multiset(alphabets.1) {
          var i :| 0 <= i < |plaintext[1..]| && plaintext[1..][i] !in multiset(alphabets.1);
          assert plaintext[i + 1] == plaintext[1..][i];
        }
      }
    }
  }

  /** The consequence for `encode` with three-character alphabets: after `A` is enciphered the
      right alphabet has lost `C`, so `AC` is rejected although both characters are in `ABC`. */
  lemma ThreeLetterEncodeRejects(left: seq<char>, right: seq<char>)
    requires left == "XYZ" && right == "ABC"
    ensures Encode("AC", left, right) == Err(IllegalArgument)
    ensures 'A' in right && 'C' in right
  {
    assert Find(right, 'A') == 0;
    assert Rotated(right, 1) == "BCA" && Shifted("BCA", 2) == "BAA";
    var alphabets := Permute(left, right, 0);
    assert alphabets.1 == "BAA";
    assert Find(alphabets.1, 'C') == -1;
    assert "AC"[0] == 'A' && "AC"[1..] == "C";
    assert "C"[0] == 'C';
  }

  /** With four-character alphabets a permutation step rotates both alphabets and then swaps the
      second and third characters of the left one; the right alphabet's shift starts at its nadir
      and changes nothing. */
  lemma PermuteFour(left: seq<char>, right: seq<char>, k: nat)
    requires |left| == |right| == 4 && k < 4
    ensures Permute(left, right, k).0 == [left[k], left[(k + 2) % 4], left[(k + 1) % 4], left[(k + 3) % 4]]
    ensures Permute(left, right, k).1 == [right[(k + 1) % 4], right[(k + 2) % 4], right[(k + 3) % 4], right[k]]
  {
    RotatedFour(left, k);
    RotatedFour(right, k + 1);
    ShiftedFour(Rotated(left, k));
    assert (k + 1 + 3) % 4 == k;
  }

  /** A rotation of four characters, written out. */
  lemma RotatedFour(s: seq<char>, k: nat)
    requires |s| == 4
    ensures Rotated(s, k) == [s[k % 4], s[(k + 1) % 4], s[(k + 2) % 4], s[(k + 3) % 4]]
  {
    RotatedAt(s, k);
  }

  /** Both shifts of four characters, written out: the nadir is 2. */
  lemma ShiftedFour(s: seq<char>)
    requires |s| == 4
    ensures Shifted(s, 1) == [s[0], s[2], s[1], s[3]]
    ensures Shifted(s, 2) == s
  {
    ShiftedAt(s, 1);
    ShiftedAt(s, 2);
  }

  /** Encoding a plaintext that starts with `c`, with four-character alphabets and `c` found at
      index `k` of the right alphabet: the left character at `k` followed by the encoding of the rest
      under the alphabets `PermuteFour` describes. */
  lemma FourLetterStep(c: char, rest: string, left: seq<char>, right: seq<char>, k: nat,
                       newLeft: seq<char>, newRight: seq<char>)
    requires |left| == |right| == 4 && k < 4 && right[k] == c && forall j :: 0 <= j < k ==> right[j] != c
    requires newLeft == [left[k], left[(k + 2) % 4], left[(k + 1) % 4], left[(k + 3) % 4]]
    requires newRight == [right[(k + 1) % 4], right[(k + 2) % 4], right[(k + 3) % 4], right[k]]
    ensures Encode([c] + rest, left, right) == Prepend([left[k]], Encode(rest, newLeft, newRight))
  {
    assert Find(right, c) == k;
    PermuteFour(left, right, k);
    assert ([c] + rest)[0] == c && ([c] + rest)[1..] == rest;
  }

  /** The first character of the four-letter alphabet test: `A` is at index 0 of `ABCD`, so it
      enciphers as `Z`, and the alphabets become `ZXYW` and `BCDA`. */
  lemma SmallAlphabetsFirstStep(left: seq<char>, right: seq<char>)
    requires left == "ZYXW" && right == "ABCD"
    ensures Encode("A", left, right) == Ok("Z")
    ensures Permute(left, right, 0) == ("ZXYW", "BCDA")
  {
    var left1, right1 := [left[0], left[2], left[1], left[3]], [right[1], right[2], right[3], right[0]];
    PermuteFour(left, right, 0);
    assert left1 == "ZXYW" && right1 == "BCDA";
    FourLetterStep('A', [], left, right, 0, left1, right1);
    assert "A" == ['A'] + [] && Encode([], left1, right1) == Ok([]);
    assert [left[0]] + [] == "Z";
  }

  /** `indexOf(needle, haystack)`: the scan for the least index holding `needle`, or -1. */
  method IndexOf(needle: char, haystack: array<char>) returns (r: int)
    ensures r == Find(haystack[..], needle)
  {
    for i := 0 to haystack.Length
      invariant forall j :: 0 <= j < i ==> haystack[j] != needle
    {
      if haystack[i] == needle {
        return i;
      }
    }
    return -1;
  }

  /** `rotateLeft(source, places)`: a fresh array holding `source` rotated leftward; `source` is
      not modified. */
  method RotateLeft(source: array<char>, places: nat) returns (rotated: array<char>)
    requires source.Length > 0
    ensures fresh(rotated) && rotated[..] == Rotated(source[..], places)
  {
    var realPlaces := places % source.Length;
    rotated := new char[source.Length];
    var destIndex := 0;
    for i := realPlaces to source.Length
      invariant destIndex == i - realPlaces
      invariant forall j :: 0 <= j < destIndex ==> rotated[j] == source[realPlaces + j]
    {
      rotated[destIndex] := source[i];
      destIndex := destIndex + 1;
    }
    for i := 0 to realPlaces
      invariant destIndex == source.Length - realPlaces + i
      invariant forall j :: 0 <= j < source.Length - realPlaces ==> rotated[j] == source[realPlaces + j]
      invariant forall j :: 0 <= j < i ==> rotated[source.Length - realPlaces + j] == source[j]
    {
      rotated[destIndex] := source[i];
      destIndex := destIndex + 1;
    }
    assert rotated[..] == source[realPlaces..] + source[..realPlaces];
    RotatedMod(source[..], places);
  }

  /** `shiftFirstHalf(source, startIndex)`, in place. */
  method ShiftFirstHalf(source: array<char>, startIndex: nat)
    requires startIndex < source.Length
    modifies source
    ensures source[..] == Shifted(old(source[..]), startIndex)
  {
    ghost var s := source[..];
    var nadir := source.Length / 2;
    var extracted := source[startIndex];
    var i := startIndex + 1;
    while i <= nadir
      invariant startIndex + 1 <= i <= source.Length && (startIndex <= nadir ==> i <= nadir + 1)
      invariant startIndex > nadir ==> i == startIndex + 1
      invariant forall j :: 0 <= j < source.Length && (j < startIndex || j >= i - 1) ==> source[j] == s[j]
      invariant forall j :: startIndex <= j < i - 1 ==> source[j] == s[j + 1]
    {
      source[i - 1] := source[i];
      i := i + 1;
    }
    source[nadir] := extracted;
    ShiftedFrom(s, source[..], startIndex);
  }

  /** The four statements of `encode` that permute both alphabets after the character at index
      `k` was enciphered: fresh, distinct arrays holding the permuted alphabets. */
  method PermuteAlphabets(left: array<char>, right: array<char>, k: nat) returns (newLeft: array<char>, newRight: array<char>)
    requires left.Length == right.Length >= 3
    ensures fresh(newLeft) && fresh(newRight) && newLeft != newRight
    ensures newLeft.Length == newRight.Length == left.Length
    ensures (newLeft[..], newRight[..]) == Permute(left[..], right[..], k)
  {
    newLeft := RotateLeft(left, k);
    ShiftFirstHalf(newLeft, 1);
    newRight := RotateLeft(right, k + 1);
    ShiftFirstHalf(newRight, 2);
  }

  /** One turn of the loop of `encode`: the character at `i` is looked up in the right alphabet;
      when it is missing the outcome is IllegalArgumentException, otherwise the left character is
      appended and the alphabets are permuted. Either way the outcome of the whole encoding stays
      what it was. */
  method EncodeCharacter(plaintext: string, i: nat, ciphertext: StringBuilder, left: array<char>, right: array<char>)
    returns (found: bool, newLeft: array<char>, newRight: array<char>)
    requires i < |plaintext| && left.Length == right.Length >= 3
    modifies ciphertext
    ensures !found ==> Prepend(old(ciphertext.contents), Encode(plaintext[i..], left[..], right[..])) == Err(IllegalArgument)
    ensures found ==> fresh(newLeft) && fresh(newRight) && newLeft != newRight
    ensures newLeft.Length == newRight.Length == left.Length
    ensures found ==>
      Prepend(old(ciphertext.contents), Encode(plaintext[i..], left[..], right[..]))
      == Prepend(ciphertext.contents, Encode(plaintext[i + 1..], newLeft[..], newRight[..]))
  {
    var currentPlain := plaintext[i];
    var plainIndex := IndexOf(currentPlain, right);
    EncodeStep(plaintext, i, left[..], right[..], ciphertext.contents);
    if plainIndex == -1 {
      return false, left, right;
    }
    ciphertext.Append([left[plainIndex]]);
    newLeft, newRight := PermuteAlphabets(left, right, plainIndex);
    found := true;
  }

  /** `encode(plaintext, leftAlphabet, rightAlphabet)`: the Java loop, with each step's alphabets
      freshly rotated copies, so the caller's arrays are not modified. */
  method EncodeText(plaintext: string, leftAlphabet: array<char>, rightAlphabet: array<char>) returns (r: Result<string>)
    requires leftAlphabet.Length == rightAlphabet.Length >= 3
    ensures r == Encode(plaintext, leftAlphabet[..], rightAlphabet[..])
  {
    var ciphertext := new StringBuilder();
    var left := leftAlphabet;
    var right := rightAlphabet;
    assert plaintext[0..] == plaintext;
    PrependNothing(Encode(plaintext, left[..], right[..]));
    for i := 0 to |plaintext|
      invariant left.Length == right.Length == leftAlphabet.Length
      invariant Encode(plaintext, leftAlphabet[..], rightAlphabet[..]) == Prepend(ciphertext.contents, Encode(plaintext[i..], left[..], right[..]))
    {
      var found;
      found, left, right := EncodeCharacter(plaintext, i, ciphertext, left, right);
      if !found {
        return Err(IllegalArgument);
      }
    }
    assert plaintext[|plaintext|..] == [] && ciphertext.contents + [] == ciphertext.contents;
    return Ok(ciphertext.contents);
  }
}
