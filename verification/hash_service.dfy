/** `UrlHashService`: derives a six-symbol short code from a long URL by
    hashing the normalized URL, rendering the digest in base 62 and probing
    the store for a free code, at most 100 times. */
module HashService {
  import opened Common
  import opened Text
  import opened Base62

  const MaxCollisionAttempts: nat := 100
  const EmptyUrlMessage: string := "URL cannot be null or empty"
  const EmptyCodeMessage: string := "Code cannot be null or empty"
  const ExhaustedMessage: string := "Unable to generate unique short code after 100 attempts"

  /** MD5 of the UTF-8 bytes of a string. The digest is a library call, so the
      model takes it as a parameter and relies on no property of it. */
  type Digest = string -> seq<Byte>

  predicate HasScheme(url: string) {
    StartsWith(url, "http://") || StartsWith(url, "https://")
  }

  /** `normalizeUrl`: prepend `https://` to a URL without an http(s) scheme. */
  function NormalizeUrl(url: string): (r: string)
    ensures HasScheme(r)
  {
    if !HasScheme(url) then
      assert ("https://" + url)[..8] == "https://";
      "https://" + url
    else url
  }

  /** The scheme is prepended exactly when it is missing, and normalizing
      twice is normalizing once. */
  lemma NormalizeUrlSpec(url: string)
    ensures NormalizeUrl(url) == url <==> HasScheme(url)
    ensures !HasScheme(url) ==> NormalizeUrl(url) == "https://" + url
    ensures NormalizeUrl(NormalizeUrl(url)) == NormalizeUrl(url)
  {
    if !HasScheme(url) {
      assert |NormalizeUrl(url)| == |url| + 8;
    }
  }

  /** `exists(code)`: a blank code is refused before the store is asked;
      otherwise the trimmed code is looked up among the codes in use. */
  function Exists(taken: set<string>, code: string): (r: Result<bool>)
    ensures r.Failure? <==> forall i :: 0 <= i < |code| ==> IsTrimmable(code[i])
    ensures r.Failure? ==> r.error == IllegalArgument(EmptyCodeMessage)
    ensures r.Success? ==> (r.value <==> Trim(code) in taken)
  {
    if IsBlank(code) then Failure(IllegalArgument(EmptyCodeMessage))
    else Success(Trim(code) in taken)
  }

  /** The hash input of probe `attempt`: the normalized URL for the first
      probe, then the normalized URL suffixed with `_` and the attempt number. */
  function Candidate(normalized: string, attempt: nat): string {
    if attempt == 0 then normalized else normalized + "_" + NatToDecimal(attempt)
  }

  /** The code probed for one hash input. */
  function CodeFor(md5: Digest, input: string): string {
    ShortCode(Magnitude(md5(input)))
  }

  predicate Taken(md5: Digest, normalized: string, taken: set<string>, attempt: nat) {
    CodeFor(md5, Candidate(normalized, attempt)) in taken
  }

  /** The first attempt, from `from` on and below 100, whose code is free. */
  function FirstFree(md5: Digest, normalized: string, taken: set<string>, from: nat): (r: Option<nat>)
    ensures r.Some? ==> from <= r.value < MaxCollisionAttempts
    ensures r.Some? ==> !Taken(md5, normalized, taken, r.value)
    ensures r.Some? ==> forall j :: from <= j < r.value ==> Taken(md5, normalized, taken, j)
    ensures r.None? ==> forall j :: from <= j < MaxCollisionAttempts ==> Taken(md5, normalized, taken, j)
    decreases MaxCollisionAttempts - from
  {
    if from >= MaxCollisionAttempts then None
    else if !Taken(md5, normalized, taken, from) then Some(from)
    else FirstFree(md5, normalized, taken, from + 1)
  }

  /** What `generateShortCode` returns for a given set of codes in use. */
  function Generate(md5: Digest, taken: set<string>, longUrl: string): (r: Result<string>)
    ensures IsBlank(longUrl) <==> r == Failure(IllegalArgument(EmptyUrlMessage))
    ensures r.Success? ==> |r.value| == ShortCodeLength && IsBase62(r.value) && r.value !in taken
    ensures r.Success? || r == Failure(IllegalArgument(EmptyUrlMessage)) || r == Failure(Runtime(ExhaustedMessage))
  {
    if IsBlank(longUrl) then Failure(IllegalArgument(EmptyUrlMessage))
    else
      var normalized := NormalizeUrl(Trim(longUrl));
      match FirstFree(md5, normalized, taken, 0)
      case Some(k) =>
        ShortCodeMeaning(Magnitude(md5(Candidate(normalized, k))));
        Success(CodeFor(md5, Candidate(normalized, k)))
      case None => Failure(Runtime(ExhaustedMessage))
  }

  /** How many times `generateShortCode` asks the store whether a code exists. */
  function ProbeCount(md5: Digest, taken: set<string>, longUrl: string): nat {
    if IsBlank(longUrl) then 0
    else match FirstFree(md5, NormalizeUrl(Trim(longUrl)), taken, 0)
      case Some(k) => k + 1
      case None => MaxCollisionAttempts
  }

  /** A short code is never blank and is its own trim. */
  lemma CodeIsTrimmed(code: string)
    requires |code| == ShortCodeLength && IsBase62(code)
    ensures Trim(code) == code && !IsBlank(code)
  {
    TrimOfTrimmed(code);
  }

  /** The result when the first free attempt at or after `from` is known. */
  lemma GenerateFrom(md5: Digest, taken: set<string>, longUrl: string, from: nat)
    requires !IsBlank(longUrl)
    requires FirstFree(md5, NormalizeUrl(Trim(longUrl)), taken, 0) == FirstFree(md5, NormalizeUrl(Trim(longUrl)), taken, from)
    ensures from < MaxCollisionAttempts && !Taken(md5, NormalizeUrl(Trim(longUrl)), taken, from) ==>
      Generate(md5, taken, longUrl) == Success(CodeFor(md5, Candidate(NormalizeUrl(Trim(longUrl)), from))) &&
      ProbeCount(md5, taken, longUrl) == from + 1
    ensures from >= MaxCollisionAttempts ==>
      Generate(md5, taken, longUrl) == Failure(Runtime(ExhaustedMessage)) &&
      ProbeCount(md5, taken, longUrl) == MaxCollisionAttempts
  {
  }

  /** One probe's code: `toBase62(md5(input)).substring(0, 6)`. */
  method HashToCode(md5: Digest, input: string) returns (code: string)
    ensures code == CodeFor(md5, input)
    ensures |code| == ShortCodeLength && IsBase62(code) && Trim(code) == code && !IsBlank(code)
  {
    var hashBytes := md5(input);
    var encoded := ToBase62(Magnitude(hashBytes));
    code := encoded[..ShortCodeLength];
    ShortCodeMeaning(Magnitude(hashBytes));
    CodeIsTrimmed(code);
  }

  /** One probe of the loop: the code of a hash input, and whether `exists`
      reports it free. A generated code is never blank, so `exists` does
      not throw here. */
  method Probe(md5: Digest, taken: set<string>, input: string) returns (shortCode: string, free: bool)
    ensures shortCode == CodeFor(md5, input)
    ensures free <==> shortCode !in taken
  {
    shortCode := HashToCode(md5, input);
    var found := Exists(taken, shortCode);
    if found.Failure? {
      assert false;
    }
    free := !found.value;
  }

  /** `generateShortCode` with its probing loop. */
  method GenerateShortCode(md5: Digest, taken: set<string>, longUrl: string)
    returns (r: Result<string>, probes: nat)
    ensures r == Generate(md5, taken, longUrl)
    ensures probes == ProbeCount(md5, taken, longUrl)
  {
    if IsBlank(longUrl) {
      return Failure(IllegalArgument(EmptyUrlMessage)), 0;
    }
    var normalized := NormalizeUrl(Trim(longUrl));
    var baseInput := normalized;
    var collisionCounter := 0;
    probes := 0;
    while collisionCounter < MaxCollisionAttempts
      invariant collisionCounter <= MaxCollisionAttempts
      invariant baseInput == Candidate(normalized, collisionCounter)
      invariant probes == collisionCounter
      invariant FirstFree(md5, normalized, taken, 0) == FirstFree(md5, normalized, taken, collisionCounter)
    {
      var shortCode, free := Probe(md5, taken, baseInput);
      probes := probes + 1;
      if free {
        GenerateFrom(md5, taken, longUrl, collisionCounter);
        return Success(shortCode), probes;
      }
      collisionCounter := collisionCounter + 1;
      baseInput := normalized + "_" + NatToDecimal(collisionCounter);
    }
    GenerateFrom(md5, taken, longUrl, collisionCounter);
    return Failure(Runtime(ExhaustedMessage)), probes;
  }

  /** The search from `from` stops at the first free attempt `k`: any other
      answer would contradict `FirstFree`'s contract at `k` or at its own answer. */
  lemma FirstFreeAt(md5: Digest, normalized: string, taken: set<string>, from: nat, k: nat)
    requires from <= k < MaxCollisionAttempts
    requires !Taken(md5, normalized, taken, k)
    requires forall j :: from <= j < k ==> Taken(md5, normalized, taken, j)
    ensures FirstFree(md5, normalized, taken, from) == Some(k)
  {
    match FirstFree(md5, normalized, taken, from)
    case None =>
      assert false;
    case Some(v) =>
      if v < k {
        assert false;
      } else if v > k {
        assert false;
      }
  }

  /** The returned code is the one of the first free candidate: when attempt
      `k` is free and every earlier one is taken, the call returns the code of
      attempt `k` after exactly `k + 1` existence checks. */
  lemma GenerateFirstFree(md5: Digest, taken: set<string>, longUrl: string, k: nat)
    requires !IsBlank(longUrl) && k < MaxCollisionAttempts
    requires !Taken(md5, NormalizeUrl(Trim(longUrl)), taken, k)
    requires forall j :: 0 <= j < k ==> Taken(md5, NormalizeUrl(Trim(longUrl)), taken, j)
    ensures Generate(md5, taken, longUrl) == Success(CodeFor(md5, Candidate(NormalizeUrl(Trim(longUrl)), k)))
    ensures ProbeCount(md5, taken, longUrl) == k + 1
  {
    FirstFreeAt(md5, NormalizeUrl(Trim(longUrl)), taken, 0, k);
  }

  /** The second candidate is the input suffixed with `_1`. */
  lemma SecondCandidate(normalized: string)
    ensures Candidate(normalized, 1) == normalized + "_1"
  {
    assert NatToDecimal(1) == "1";
  }

  /** One collision followed by a free slot: two probes, and the code comes
      from the input suffixed with `_1`. */
  lemma CollisionThenFree(md5: Digest, taken: set<string>, longUrl: string)
    requires !IsBlank(longUrl)
    requires CodeFor(md5, NormalizeUrl(Trim(longUrl))) in taken
    requires CodeFor(md5, NormalizeUrl(Trim(longUrl)) + "_1") !in taken
    ensures ProbeCount(md5, taken, longUrl) == 2
    ensures Generate(md5, taken, longUrl) == Success(CodeFor(md5, NormalizeUrl(Trim(longUrl)) + "_1"))
  {
    var normalized := NormalizeUrl(Trim(longUrl));
    SecondCandidate(normalized);
    assert Taken(md5, normalized, taken, 0);
    GenerateFirstFree(md5, taken, longUrl, 1);
  }

  /** The call fails with the exhaustion error exactly when all 100
      candidates are in use, and then it has probed all of them. */
  lemma AllTakenExhausts(md5: Digest, taken: set<string>, longUrl: string)
    requires !IsBlank(longUrl)
    ensures Generate(md5, taken, longUrl) == Failure(Runtime(ExhaustedMessage)) <==>
      forall j :: 0 <= j < MaxCollisionAttempts ==> Taken(md5, NormalizeUrl(Trim(longUrl)), taken, j)
    ensures Generate(md5, taken, longUrl) == Failure(Runtime(ExhaustedMessage)) ==>
      ProbeCount(md5, taken, longUrl) == MaxCollisionAttempts
  {
    var normalized := NormalizeUrl(Trim(longUrl));
    match FirstFree(md5, normalized, taken, 0)
    case Some(k) =>
      assert !Taken(md5, normalized, taken, k);
    case None =>
  }

  /** Distinct attempts hash distinct inputs. */
  lemma CandidatesDistinct(normalized: string, j: nat, k: nat)
    requires j != k
    ensures Candidate(normalized, j) != Candidate(normalized, k)
  {
    if j != 0 && k != 0 && Candidate(normalized, j) == Candidate(normalized, k) {
      var p := |normalized| + 1;
      assert Candidate(normalized, j)[p..] == NatToDecimal(j);
      assert Candidate(normalized, k)[p..] == NatToDecimal(k);
      DecimalInjective(j, k);
    } else if j == 0 {
      assert |Candidate(normalized, k)| > |normalized|;
    } else {
      assert |Candidate(normalized, j)| > |normalized|;
    }
  }

  /** A normalized, trimmed URL is its own trim. */
  lemma NormalizedIsTrimmed(url: string)
    requires !IsBlank(url)
    ensures Trim(NormalizeUrl(Trim(url))) == NormalizeUrl(Trim(url))
    ensures !IsBlank(NormalizeUrl(Trim(url)))
  {
    var t := Trim(url);
    var n := NormalizeUrl(t);
    if !HasScheme(t) {
      assert n[0] == 'h' && n[|n| - 1] == t[|t| - 1];
    }
    TrimOfTrimmed(n);
  }

  /** URLs that normalize alike get the same code: generating from a URL or
      from its normalized form gives the same result. */
  lemma GenerateNormalizes(md5: Digest, taken: set<string>, longUrl: string)
    requires !IsBlank(longUrl)
    ensures Generate(md5, taken, longUrl) == Generate(md5, taken, NormalizeUrl(Trim(longUrl)))
    ensures ProbeCount(md5, taken, longUrl) == ProbeCount(md5, taken, NormalizeUrl(Trim(longUrl)))
  {
    NormalizedIsTrimmed(longUrl);
    NormalizeUrlSpec(Trim(longUrl));
  }

  /** The scheme is optional: a URL without one (such as `example.com`) gets
      the same code as the URL with `https://` written out. */
  lemma SchemeOptional(md5: Digest, taken: set<string>, url: string)
    requires !IsBlank(url) && !HasScheme(Trim(url))
    ensures Generate(md5, taken, url) == Generate(md5, taken, "https://" + Trim(url))
  {
    GenerateNormalizes(md5, taken, url);
  }
}
