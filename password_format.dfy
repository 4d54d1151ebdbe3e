/** The stored password format of UserService: the encoder's output is cut at
    ':' by Java's `String.split(":")` into a hash (part 0) and a salt (part 1),
    and the two are glued back with `String.format("%s:%s", hash, salt)`
    before the encoder's `matches` sees them. */
module PasswordFormat {
  import opened Common

  /** Every ':'-separated field of `s`, empty fields included. */
  function Fields(s: string): (parts: seq<string>)
    ensures |parts| >= 1
    ensures forall i :: 0 <= i < |parts| ==> ':' !in parts[i]
  {
    if s == [] then [[]]
    else
      var rest := Fields(s[1..]);
      if s[0] == ':' then [[]] + rest
      else [[s[0]] + rest[0]] + rest[1..]
  }

  /** The fields glued back together with ':'. */
  function JoinFields(parts: seq<string>): string
    requires |parts| >= 1
  {
    if |parts| == 1 then parts[0] else parts[0] + ":" + JoinFields(parts[1..])
  }

  /** The fields left once Java drops the trailing empty strings of a split. */
  function DropTrailingEmpty(parts: seq<string>): (r: seq<string>)
    ensures r <= parts
    ensures r == [] || r[|r| - 1] != []
    ensures forall i :: |r| <= i < |parts| ==> parts[i] == []
  {
    if parts == [] || parts[|parts| - 1] != [] then parts
    else DropTrailingEmpty(parts[..|parts| - 1])
  }

  /** `s.split(":")`: the whole string when it holds no ':', otherwise its
      fields without the trailing empty ones. */
  function Split(s: string): (parts: seq<string>)
    ensures |parts| <= ColonCount(s) + 1
    ensures forall i :: 0 <= i < |parts| ==> ':' !in parts[i]
  {
    FieldsCount(s);
    if ':' !in s then [s] else DropTrailingEmpty(Fields(s))
  }

  /** `String.format("%s:%s", hash, salt)`. */
  function JoinHashAndSalt(hash: string, salt: string): (r: string)
    ensures |r| == |hash| + 1 + |salt|
    ensures r[..|hash|] == hash && r[|hash|] == ':' && r[|hash| + 1..] == salt
  {
    hash + ":" + salt
  }

  /** The number of ':' characters in `s`. */
  function ColonCount(s: string): nat
  {
    multiset(s)[':']
  }

  datatype HashAndSalt = HashAndSalt(hash: string, salt: string)

  /** Parts 0 and 1 of the split encoder output; reading part 1 of a split
      with fewer than two parts throws. */
  function SplitHashAndSalt(encoded: string): (r: Result<HashAndSalt>)
    ensures r.Success? <==> |Split(encoded)| >= 2
    ensures r.Failure? ==> r.error == ArrayIndexOutOfBoundsException
    ensures r.Success? ==> r.value == HashAndSalt(Split(encoded)[0], Split(encoded)[1])
    ensures r.Success? ==> ':' !in r.value.hash && ':' !in r.value.salt
  {
    var parts := Split(encoded);
    if |parts| < 2 then Failure(ArrayIndexOutOfBoundsException)
    else
      assert parts <= Fields(encoded);
      assert parts[0] == Fields(encoded)[0] && parts[1] == Fields(encoded)[1];
      Success(HashAndSalt(parts[0], parts[1]))
  }

  /** There is one more field than there are ':'. */
  lemma {:induction false} FieldsCount(s: string)
    ensures |Fields(s)| == ColonCount(s) + 1
  {
    if s != [] {
      FieldsCount(s[1..]);
      assert s == [s[0]] + s[1..];
      assert multiset(s) == multiset{s[0]} + multiset(s[1..]);
    }
  }

  lemma {:induction false} JoinFieldsOfFields(s: string)
    ensures JoinFields(Fields(s)) == s
  {
    if s != [] {
      JoinFieldsOfFields(s[1..]);
      var rest := Fields(s[1..]);
      if s[0] != ':' && |rest| > 1 {
        assert ([[s[0]] + rest[0]] + rest[1..])[1..] == rest[1..];
      }
    }
  }

  lemma {:induction false} FieldsOfColonFree(h: string)
    requires ':' !in h
    ensures Fields(h) == [h]
  {
    if h != [] {
      FieldsOfColonFree(h[1..]);
      assert [h[0]] + h[1..] == h;
    }
  }

  lemma {:induction false} FieldsAfterColonFree(h: string, t: string)
    requires ':' !in h
    ensures Fields(h + ":" + t) == [h] + Fields(t)
  {
    var s := h + ":" + t;
    if h == [] {
      assert s[1..] == t;
    } else {
      assert s[1..] == h[1..] + ":" + t;
      FieldsAfterColonFree(h[1..], t);
      assert [h[0]] + h[1..] == h;
    }
  }

  /** How `split(":")` cuts a string with exactly one ':'. */
  lemma SplitOfOneColon(h: string, t: string)
    requires ':' !in h && ':' !in t
    ensures Split(h + ":" + t) == if t != [] then [h, t] else if h != [] then [h] else []
  {
    FieldsAfterColonFree(h, t);
    FieldsOfColonFree(t);
    assert (h + ":" + t)[|h|] == ':';
    assert Fields(h + ":" + t) == [h, t];
    if t == [] {
      assert DropTrailingEmpty([h, t]) == DropTrailingEmpty([h]);
    }
  }

  /** Joining a colon-free hash and a non-empty colon-free salt and splitting
      the result gives the two parts back. */
  lemma JoinThenSplit(hash: string, salt: string)
    requires ':' !in hash && ':' !in salt && salt != []
    ensures SplitHashAndSalt(JoinHashAndSalt(hash, salt)) == Success(HashAndSalt(hash, salt))
  {
    SplitOfOneColon(hash, salt);
  }

  /** A string with exactly one ':' is a colon-free hash, the ':' and a
      colon-free salt. */
  lemma OneColonShape(s: string) returns (i: nat)
    requires ColonCount(s) == 1
    ensures i < |s| && s[i] == ':' && s == s[..i] + ":" + s[i + 1..]
    ensures ':' !in s[..i] && ':' !in s[i + 1..]
  {
    assert ':' in multiset(s);
    i :| 0 <= i < |s| && s[i] == ':';
    assert s == s[..i] + [s[i]] + s[i + 1..];
    assert multiset(s) == multiset(s[..i]) + multiset{':'} + multiset(s[i + 1..]);
    assert multiset(s[..i])[':'] == 0 && multiset(s[i + 1..])[':'] == 0;
  }

  /** For an encoder output with exactly one ':', `encodePassword` succeeds
      exactly when the salt after it is non-empty, and then the parts glue
      back into the whole output. */
  lemma SplitOfOneColonOutput(encoded: string)
    requires ColonCount(encoded) == 1
    ensures SplitHashAndSalt(encoded).Success? <==> encoded[|encoded| - 1] != ':'
    ensures SplitHashAndSalt(encoded).Success? ==>
              var hs := SplitHashAndSalt(encoded).value;
              JoinHashAndSalt(hs.hash, hs.salt) == encoded
  {
    var i := OneColonShape(encoded);
    var h, t := encoded[..i], encoded[i + 1..];
    assert encoded == h + ":" + t;
    SplitOfOneColon(h, t);
    var parts := Split(encoded);
    if t == [] {
      assert encoded[|encoded| - 1] == ':';
      assert |parts| < 2;
    } else {
      assert encoded[|encoded| - 1] == t[|t| - 1];
      assert parts == [h, t];
      assert SplitHashAndSalt(encoded) == Success(HashAndSalt(h, t));
    }
  }

  /** The first two fields, glued with ':', begin the glued fields. */
  lemma {:induction false} JoinOfFirstTwoIsPrefix(f: seq<string>)
    requires |f| >= 2
    ensures JoinHashAndSalt(f[0], f[1]) <= JoinFields(f)
  {
    var joined := f[0] + ":" + f[1];
    if |f| == 2 {
      assert f[1..] == [f[1]];
    } else {
      var rest := JoinFields(f[2..]);
      assert f[1..][1..] == f[2..];
      assert JoinFields(f[1..]) == f[1] + ":" + rest;
      assert JoinFields(f) == joined + (":" + rest);
    }
  }

  /** Whatever the encoder output, the parts `encodePassword` keeps, glued
      back, begin it; gluing reproduces it only if it holds a single ':'. */
  lemma SplitKeepsPrefix(encoded: string)
    requires SplitHashAndSalt(encoded).Success?
    ensures var hs := SplitHashAndSalt(encoded).value;
            && JoinHashAndSalt(hs.hash, hs.salt) <= encoded
            && (JoinHashAndSalt(hs.hash, hs.salt) == encoded ==> ColonCount(encoded) == 1)
  {
    var hs := SplitHashAndSalt(encoded).value;
    var f := Fields(encoded);
    assert ':' in encoded;
    assert Split(encoded) == DropTrailingEmpty(f);
    assert hs.hash == f[0] && hs.salt == f[1];
    JoinFieldsOfFields(encoded);
    JoinOfFirstTwoIsPrefix(f);
    JoinHasOneColon(hs.hash, hs.salt);
  }

  /** A colon-free hash and salt glued with ':' hold exactly one ':'. */
  lemma JoinHasOneColon(hash: string, salt: string)
    requires ':' !in hash && ':' !in salt
    ensures ColonCount(JoinHashAndSalt(hash, salt)) == 1
  {
    assert JoinHashAndSalt(hash, salt) == hash + [':'] + salt;
    assert multiset(hash)[':'] == 0 && multiset(salt)[':'] == 0;
  }

  /** The storage round trip of `encodePassword` followed by `"%s:%s"`:
      it fails on an output without ':'; when it succeeds the glued parts
      begin the output, and are all of it exactly when it holds one ':'. */
  lemma SplitThenJoin(encoded: string)
    ensures ':' !in encoded ==> SplitHashAndSalt(encoded).Failure?
    ensures ColonCount(encoded) == 1 ==>
              (SplitHashAndSalt(encoded).Success? <==> encoded[|encoded| - 1] != ':')
    ensures SplitHashAndSalt(encoded).Success? ==>
              var hs := SplitHashAndSalt(encoded).value;
              && JoinHashAndSalt(hs.hash, hs.salt) <= encoded
              && (JoinHashAndSalt(hs.hash, hs.salt) == encoded <==> ColonCount(encoded) == 1)
  {
    if ColonCount(encoded) == 1 {
      SplitOfOneColonOutput(encoded);
    }
    if SplitHashAndSalt(encoded).Success? {
      SplitKeepsPrefix(encoded);
    }
  }
}
