/** Two helpers of `UrlHashServiceUsageExample`: the deny-list check
    `isUrlAllowed`, and `integrateWithServiceLayer`, which validates the
    input, trims it and calls the generator up to three times. */
module UsageExample {
  import opened Common
  import opened Text
  import opened HashService

  const BlockedDomains: seq<string> := ["malicious-site.com", "spam.com", "phishing.net"]
  const BlockedExtensions: seq<string> := [".exe", ".bat", ".scr"]

  const MaxRetries: nat := 3
  const EmptyInputMessage: string := "URL cannot be empty"
  const RetryMessage: string := "Failed to generate short code after 3 attempts"

  /** The deny list: the lower-cased URL contains no blocked domain anywhere
      and ends with no blocked extension. */
  predicate Allowed(url: string) {
    var lower := ToLowerAscii(url);
    && (forall d :: d in BlockedDomains ==> !Contains(lower, d))
    && (forall e :: e in BlockedExtensions ==> !EndsWith(lower, e))
  }

  /** `isUrlAllowed`: the two scans over the deny lists, each returning
      `false` at the first hit. */
  method IsUrlAllowed(url: string) returns (allowed: bool)
    ensures allowed <==> Allowed(url)
  {
    var lowerUrl := ToLowerAscii(url);
    for k := 0 to |BlockedDomains|
      invariant forall j :: 0 <= j < k ==> !Contains(lowerUrl, BlockedDomains[j])
    {
      if Contains(lowerUrl, BlockedDomains[k]) {
        return false;
      }
    }
    for k := 0 to |BlockedExtensions|
      invariant forall j :: 0 <= j < k ==> !EndsWith(lowerUrl, BlockedExtensions[j])
    {
      if EndsWith(lowerUrl, BlockedExtensions[k]) {
        return false;
      }
    }
    return true;
  }

  /** A blocked domain in any letter case, anywhere in the URL, rejects it:
      the test is on substrings, not on host names. */
  lemma BlockedDomainAnywhere(prefix: string, domain: string, suffix: string)
    requires ToLowerAscii(domain) in BlockedDomains
    ensures !Allowed(prefix + domain + suffix)
  {
    var lower := ToLowerAscii(prefix + domain + suffix);
    ToLowerAsciiAppend(prefix + domain, suffix);
    ToLowerAsciiAppend(prefix, domain);
    var d := ToLowerAscii(domain);
    assert lower[|prefix|..|prefix| + |d|] == d;
    ContainsAt(lower, d, |prefix|);
  }

  /** A blocked extension in any letter case at the end rejects the URL. */
  lemma BlockedExtensionAtEnd(prefix: string, extension: string)
    requires ToLowerAscii(extension) in BlockedExtensions
    ensures !Allowed(prefix + extension)
  {
    var lower := ToLowerAscii(prefix + extension);
    ToLowerAsciiAppend(prefix, extension);
    assert EndsWith(lower, ToLowerAscii(extension));
  }


  /** The check looks only at the lower-cased URL. */
  lemma AllowedIgnoresCase(url: string)
    ensures Allowed(ToLowerAscii(url)) == Allowed(url)
  {
    ToLowerAsciiIdempotent(url);
  }

  /** The generator's answers to the three attempts, attempt `k` (from 1)
      probing the codes stored at that moment, `snapshots(k)`. */
  function Outcomes(md5: Digest, snapshots: nat -> set<string>, url: string): (outs: seq<Result<string>>)
    ensures |outs| == MaxRetries
  {
    [Generate(md5, snapshots(1), url), Generate(md5, snapshots(2), url), Generate(md5, snapshots(3), url)]
  }

  /** Answer `k - 1` is the one of attempt `k`. */
  lemma OutcomeOf(md5: Digest, snapshots: nat -> set<string>, url: string)
    ensures Outcomes(md5, snapshots, url)[0] == Generate(md5, snapshots(1), url)
    ensures Outcomes(md5, snapshots, url)[1] == Generate(md5, snapshots(2), url)
    ensures Outcomes(md5, snapshots, url)[2] == Generate(md5, snapshots(3), url)
  {
  }

  /** One call of the generator, against the table as attempt `k` finds it. */
  method Attempt(md5: Digest, snapshots: nat -> set<string>, url: string, k: nat) returns (generated: Result<string>)
    requires 1 <= k <= MaxRetries
    ensures generated == Outcomes(md5, snapshots, url)[k - 1]
  {
    var probes;
    generated, probes := GenerateShortCode(md5, snapshots(k), url);
    OutcomeAt(md5, snapshots, url, k);
  }

  /** Answer `k - 1` is the one of attempt `k`, for any attempt `k`. */
  lemma OutcomeAt(md5: Digest, snapshots: nat -> set<string>, url: string, k: nat)
    requires 1 <= k <= MaxRetries
    ensures Outcomes(md5, snapshots, url)[k - 1] == Generate(md5, snapshots(k), url)
  {
    OutcomeOf(md5, snapshots, url);
    assert k == 1 || k == 2 || k == 3;
  }

  /** The retry loop from the answer at index `i` on: the first code, or the
      last failure wrapped with its cause. */
  function RetryFrom(outs: seq<Result<string>>, i: nat): (r: Result<string>)
    requires i < |outs|
    ensures r.Success? <==> exists k :: i <= k < |outs| && outs[k].Success?
    ensures r.Success? ==>
      exists k :: i <= k < |outs| && outs[k] == r && forall j :: i <= j < k ==> outs[j].Failure?
    ensures r.Failure? ==> r.error == Wrapped(RetryMessage, outs[|outs| - 1].error)
    decreases |outs| - i
  {
    match outs[i]
    case Success(code) => Success(code)
    case Failure(e) =>
      if i == |outs| - 1 then Failure(Wrapped(RetryMessage, e))
      else RetryFrom(outs, i + 1)
  }

  /** How many answers the retry loop asks for from index `i` on: up to the
      first code, or all of them. */
  function CallsFrom(outs: seq<Result<string>>, i: nat): (n: nat)
    requires i < |outs|
    ensures 1 <= n <= |outs| - i
    ensures n == |outs| - i || outs[i + n - 1].Success?
    ensures forall j :: i <= j < i + n - 1 ==> outs[j].Failure?
    decreases |outs| - i
  {
    if i == |outs| - 1 || outs[i].Success? then 1
    else 1 + CallsFrom(outs, i + 1)
  }

  /** The first `n` answers are failures. */
  predicate FailedBefore(outs: seq<Result<string>>, n: nat)
    requires n <= |outs|
  {
    n == 0 || (outs[n - 1].Failure? && FailedBefore(outs, n - 1))
  }

  /** Failed answers before index `i` only pass the retry on to index `i`,
      one call each. */
  lemma {:induction false} RetryAfterFailures(outs: seq<Result<string>>, i: nat)
    requires i < |outs|
    requires FailedBefore(outs, i)
    ensures RetryFrom(outs, 0) == RetryFrom(outs, i)
    ensures CallsFrom(outs, 0) == i + CallsFrom(outs, i)
    decreases i
  {
    if i > 0 {
      RetryAfterFailures(outs, i - 1);
    }
  }

  /** The retry loop of `integrateWithServiceLayer`: up to three calls of
      the generator, returning the first code, and after the third failure
      rethrowing it wrapped. */
  method RetryLoop(md5: Digest, snapshots: nat -> set<string>, url: string)
    returns (r: Result<string>, calls: nat)
    ensures r == RetryFrom(Outcomes(md5, snapshots, url), 0)
    ensures calls == CallsFrom(Outcomes(md5, snapshots, url), 0)
  {
    ghost var outs := Outcomes(md5, snapshots, url);
    var attempt := 1;
    calls := 0;
    while true
      invariant 1 <= attempt <= MaxRetries && calls == attempt - 1
      invariant FailedBefore(outs, attempt - 1)
      decreases MaxRetries - attempt
    {
      var generated := Attempt(md5, snapshots, url, attempt);
      calls := calls + 1;
      if generated.Success? {
        RetryAfterFailures(outs, attempt - 1);
        return generated, calls;
      }
      if attempt == MaxRetries {
        RetryAfterFailures(outs, attempt - 1);
        return Failure(Wrapped(RetryMessage, generated.error)), calls;
      }
      attempt := attempt + 1;
    }
  }

  /** `integrateWithServiceLayer`: a blank input is refused before any call;
      otherwise the trimmed URL goes through the retry loop. */
  method IntegrateWithServiceLayer(md5: Digest, snapshots: nat -> set<string>, longUrl: string)
    returns (r: Result<string>, calls: nat)
    ensures IsBlank(longUrl) ==> r == Failure(IllegalArgument(EmptyInputMessage)) && calls == 0
    ensures !IsBlank(longUrl) ==>
      var outs := Outcomes(md5, snapshots, Trim(longUrl));
      r == RetryFrom(outs, 0) && calls == CallsFrom(outs, 0)
  {
    if IsBlank(longUrl) {
      return Failure(IllegalArgument(EmptyInputMessage)), 0;
    }
    var normalizedUrl := Trim(longUrl);
    r, calls := RetryLoop(md5, snapshots, normalizedUrl);
  }

  /** Retrying against an unchanged table cannot help: the three calls give
      the same answer, so the result is the single call's code or its
      failure wrapped. */
  lemma RetrySameTable(md5: Digest, taken: set<string>, url: string)
    ensures RetryFrom(Outcomes(md5, _ => taken, url), 0) ==
      match Generate(md5, taken, url)
      case Success(code) => Success(code)
      case Failure(e) => Failure(Wrapped(RetryMessage, e))
    ensures CallsFrom(Outcomes(md5, _ => taken, url), 0) ==
      if Generate(md5, taken, url).Success? then 1 else MaxRetries
  {
    var snapshots: nat -> set<string> := _ => taken;
    var outs := Outcomes(md5, snapshots, url);
    OutcomeOf(md5, snapshots, url);
    assert outs[0] == outs[1] == outs[2] == Generate(md5, taken, url);
  }

  /** Trimming first changes nothing the generator computes, which trims
      its input itself. */
  lemma TrimmedInputSameCode(md5: Digest, taken: set<string>, url: string)
    requires !IsBlank(url)
    ensures Generate(md5, taken, Trim(url)) == Generate(md5, taken, url)
  {
    TrimIdempotent(url);
    GenerateNormalizes(md5, taken, url);
    GenerateNormalizes(md5, taken, Trim(url));
  }

  /** A non-blank input never reaches the generator's own blank check: every
      failure after the retries wraps the exhaustion error. */
  lemma RetryFailureIsExhaustion(md5: Digest, snapshots: nat -> set<string>, url: string)
    requires !IsBlank(url)
    requires RetryFrom(Outcomes(md5, snapshots, Trim(url)), 0).Failure?
    ensures RetryFrom(Outcomes(md5, snapshots, Trim(url)), 0).error == Wrapped(RetryMessage, Runtime(ExhaustedMessage))
  {
    TrimIdempotent(url);
    OutcomeOf(md5, snapshots, Trim(url));
  }
}
