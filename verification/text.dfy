/** Byte strings and the whitespace trimming Register applies to passwords.
    Go strings are byte sequences and `len` counts bytes, so a password is a
    sequence of bytes here. */
module Text {

  type byte = x: int | 0 <= x < 256
  type Bytes = seq<byte>

  /** The cutset of islazy's `str.Trim`, assumed to be space, tab, line feed
      and carriage return: that library is not part of this model. */
  predicate IsSpace(b: byte) {
    b == 32 || b == 9 || b == 10 || b == 13
  }

  /** `strings.TrimLeft` with the assumed cutset above: drops leading spaces. */
  function TrimLeft(s: Bytes): (r: Bytes)
    ensures |r| <= |s| && r == s[|s| - |r|..]
    ensures r == [] || !IsSpace(r[0])
    ensures forall k :: 0 <= k < |s| - |r| ==> IsSpace(s[k])
  {
    if s != [] && IsSpace(s[0]) then TrimLeft(s[1..]) else s
  }

  /** `strings.TrimRight` with the cutset above: drops trailing spaces. */
  function TrimRight(s: Bytes): (r: Bytes)
    ensures |r| <= |s| && r == s[..|r|]
    ensures r == [] || !IsSpace(r[|r| - 1])
    ensures forall k :: |r| <= k < |s| ==> IsSpace(s[k])
  {
    if s != [] && IsSpace(s[|s| - 1]) then TrimRight(s[..|s| - 1]) else s
  }

  /** r sits in s at offset lo, and everything of s around it is space. */
  ghost predicate TrimmedAt(s: Bytes, r: Bytes, lo: nat) {
    && lo + |r| <= |s|
    && s[lo..lo + |r|] == r
    && (forall k :: 0 <= k < lo ==> IsSpace(s[k]))
    && (forall k :: lo + |r| <= k < |s| ==> IsSpace(s[k]))
  }

  /** r neither starts nor ends with a space. */
  ghost predicate Unpadded(r: Bytes) {
    r == [] || (!IsSpace(r[0]) && !IsSpace(r[|r| - 1]))
  }

  /** islazy's `str.Trim`, assumed to be `strings.Trim(s, cutset)` with the
      cutset above, left side first. The result is a slice of s with only
      spaces cut away, and it has no space left at either end. */
  function Trim(s: Bytes): (r: Bytes)
    ensures Unpadded(r)
    ensures exists lo :: TrimmedAt(s, r, lo)
  {
    var left := TrimLeft(s);
    var r := TrimRight(left);
    assert TrimmedAt(s, r, |s| - |left|);
    r
  }

  /** The two properties of Trim's contract pin its result down: any
      unpadded slice of s surrounded by spaces is Trim(s). */
  lemma {:induction false} TrimUnique(s: Bytes, r: Bytes, lo: nat)
    requires TrimmedAt(s, r, lo) && Unpadded(r)
    ensures r == Trim(s)
  {
    if r == [] {
      TrimAllSpace(s);
    } else {
      TrimFound(s, r, lo);
    }
  }

  /** A string of spaces trims to nothing. */
  lemma {:induction false} TrimAllSpace(s: Bytes)
    requires forall k :: 0 <= k < |s| ==> IsSpace(s[k])
    ensures TrimLeft(s) == [] && Trim(s) == []
  {
    if s != [] {
      TrimAllSpace(s[1..]);
    }
  }

  lemma TrimFound(s: Bytes, r: Bytes, lo: nat)
    requires r != [] && TrimmedAt(s, r, lo) && Unpadded(r)
    ensures Trim(s) == r
  {
    var hi := lo + |r|;
    assert r[0] == s[lo] && r[|r| - 1] == s[hi - 1];
    TrimLeftAt(s, lo);
    var left := s[lo..];
    assert left[..|r|] == r;
    assert left[|r| - 1] == s[hi - 1];
    assert forall k :: |r| <= k < |left| ==> left[k] == s[lo + k];
    TrimRightAt(left, |r|);
  }

  /** TrimLeft stops at the first non-space byte. */
  lemma TrimLeftAt(s: Bytes, lo: nat)
    requires lo < |s| && !IsSpace(s[lo])
    requires forall k :: 0 <= k < lo ==> IsSpace(s[k])
    ensures TrimLeft(s) == s[lo..]
  {
    var left := TrimLeft(s);
    assert left != [] ==> left[0] == s[|s| - |left|];
  }

  /** TrimRight stops at the last non-space byte. */
  lemma TrimRightAt(s: Bytes, hi: nat)
    requires 1 <= hi <= |s| && !IsSpace(s[hi - 1])
    requires forall k :: hi <= k < |s| ==> IsSpace(s[k])
    ensures TrimRight(s) == s[..hi]
  {
    var right := TrimRight(s);
    assert right != [] ==> right[|right| - 1] == s[|right| - 1];
  }

  /** Trimming twice is trimming once. */
  lemma TrimIdempotent(s: Bytes)
    ensures Trim(Trim(s)) == Trim(s)
  {
    var t := Trim(s);
    assert TrimmedAt(t, t, 0);
    TrimUnique(t, t, 0);
  }

  /** A byte string with no space at either end is left as it is. */
  lemma TrimKeepsUnpadded(s: Bytes)
    requires Unpadded(s)
    ensures Trim(s) == s
  {
    assert TrimmedAt(s, s, 0);
    TrimUnique(s, s, 0);
  }
}
