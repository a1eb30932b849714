/** The two string normalisations the script applies to what the services return:
    stripping trailing dots from domain names (`rstrip(".")`) and taking the
    last `/`-separated segment of a hosted-zone id (`split("/")[-1]`). */
module Names {

  /** A name is normalised when it does not end in '.'. */
  predicate Normalised(s: string) {
    s == [] || s[|s| - 1] != '.'
  }

  /** `s.rstrip(".")`: `s` without every trailing '.'. The result never ends
      in '.'; TrimDotsSpec says what else it is. */
  function TrimDots(s: string): (r: string)
    ensures Normalised(r)
  {
    if |s| > 0 && s[|s| - 1] == '.' then TrimDots(s[..|s| - 1]) else s
  }

  /** TrimDots(s) is a prefix of `s`, and what it drops is dots only. */
  lemma {:induction false} TrimDotsSpec(s: string)
    ensures |TrimDots(s)| <= |s| && TrimDots(s) == s[..|TrimDots(s)|]
    ensures forall k :: |TrimDots(s)| <= k < |s| ==> s[k] == '.'
  {
    if |s| > 0 && s[|s| - 1] == '.' {
      var init := s[..|s| - 1];
      TrimDotsSpec(init);
      assert init[..|TrimDots(init)|] == s[..|TrimDots(init)|];
    }
  }

  /** The facts above determine TrimDots: any prefix of `s` that does not end
      in '.' and is followed by dots only is TrimDots(s). */
  lemma {:induction false} TrimDotsUnique(s: string, t: string)
    requires |t| <= |s| && t == s[..|t|]
    requires Normalised(t)
    requires forall k :: |t| <= k < |s| ==> s[k] == '.'
    ensures t == TrimDots(s)
  {
    TrimDotsSpec(s);
  }

  /** A normalised name is left as it is. */
  lemma {:induction false} TrimDotsOfNormalised(s: string)
    requires Normalised(s)
    ensures TrimDots(s) == s
  {
  }

  /** Normalisation is idempotent. */
  lemma {:induction false} TrimDotsIdempotent(s: string)
    ensures TrimDots(TrimDots(s)) == TrimDots(s)
  {
    TrimDotsOfNormalised(TrimDots(s));
  }

  /** A stray trailing dot does not change the normalised name, so a zone name
      "example.com." and a registrar name "example.com" compare equal. */
  lemma {:induction false} TrimDotsIgnoresTrailingDot(s: string)
    ensures TrimDots(s + ".") == TrimDots(s)
  {
    var t := s + ".";
    assert t[..|t| - 1] == s;
  }

  /** `s.split("/")[-1]`: the part of `s` after its last '/', or all of `s`
      when it has none. The result never holds a '/'; LastSegmentSpec says what
      else it is. */
  function LastSegment(s: string): (r: string)
    ensures '/' !in r
  {
    if |s| == 0 || s[|s| - 1] == '/' then ""
    else LastSegment(s[..|s| - 1]) + [s[|s| - 1]]
  }

  /** LastSegment(s) is a suffix of `s` (position by position), and it is
      either all of `s` or preceded in `s` by a '/'. */
  lemma {:induction false} LastSegmentSpec(s: string)
    ensures |LastSegment(s)| <= |s|
    ensures forall k :: 0 <= k < |LastSegment(s)| ==> LastSegment(s)[k] == s[|s| - |LastSegment(s)| + k]
    ensures |LastSegment(s)| < |s| ==> s[|s| - |LastSegment(s)| - 1] == '/'
  {
    if |s| > 0 && s[|s| - 1] != '/' {
      LastSegmentSpec(s[..|s| - 1]);
    }
  }

  /** A slash-free suffix of `s` leaves no '/' in the positions it covers. */
  lemma {:induction false} SuffixHasNoSlash(s: string, r: string)
    requires |r| <= |s|
    requires forall k :: 0 <= k < |r| ==> r[k] == s[|s| - |r| + k]
    requires '/' !in r
    ensures forall p :: |s| - |r| <= p < |s| ==> s[p] != '/'
  {
    forall p | |s| - |r| <= p < |s|
      ensures s[p] != '/'
    {
      assert r[p - (|s| - |r|)] == s[p];
    }
  }

  /** The facts above determine LastSegment: a slash-free suffix of `s` that is
      all of `s` or preceded by a '/' is LastSegment(s). */
  lemma {:induction false} LastSegmentUnique(s: string, t: string)
    requires |t| <= |s|
    requires forall k :: 0 <= k < |t| ==> t[k] == s[|s| - |t| + k]
    requires '/' !in t
    requires |t| < |s| ==> s[|s| - |t| - 1] == '/'
    ensures t == LastSegment(s)
  {
    var r := LastSegment(s);
    LastSegmentSpec(s);
    SuffixHasNoSlash(s, r);
    SuffixHasNoSlash(s, t);
    assert |t| == |r|;
    assert forall k :: 0 <= k < |t| ==> t[k] == r[k];
  }

  /** An id without '/' is its own last segment. */
  lemma {:induction false} LastSegmentOfPlainId(s: string)
    requires '/' !in s
    ensures LastSegment(s) == s
  {
    LastSegmentUnique(s, s);
  }

  /** The shape the DNS service uses: "/hostedzone/<id>" gives "<id>". */
  lemma {:induction false} LastSegmentOfHostedZonePath(id: string)
    requires '/' !in id
    ensures LastSegment("/hostedzone/" + id) == id
  {
    var s := "/hostedzone/" + id;
    assert s[|s| - |id| - 1] == '/';
    LastSegmentUnique(s, id);
  }
}
