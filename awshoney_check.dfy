/**
 * The honeytoken check: the verdict drawn from the error a deliberately unsupported AppStream
 * call returns, and the key's ARN taken from the error message by the regular expression
 * `arn:.* is not`.
 *
 * The SDK call itself is left out: its outcome (success, or a client error with a code and a
 * message) is the input.
 */
module HoneyCheck {
  import opened Outcomes
  import opened Text

  const CanaryUser: string := "arn:aws:iam::534261010715:user/canarytokens.com"
  const IamPrefix: string := "arn:aws:iam::"
  const SpaceCrabPath: string := "/SpaceCrab/"
  const CanaryIamAccount: string := "arn:aws:iam::534261010715:"
  const CanaryStsAccount: string := "arn:aws:sts::534261010715:"

  /** The verdict printed for an AccessDenied message. */
  datatype Verdict = CanarytokensKey | SpaceCrabKey | CanarytokensAccount | RealKey

  /** The if/elif chain over the message, first test first. */
  function Classify(message: string): (v: Verdict)
  {
    if Contains(message, CanaryUser) then CanarytokensKey
    else if Contains(message, IamPrefix) && Contains(message, SpaceCrabPath) then SpaceCrabKey
    else if Contains(message, CanaryIamAccount) || Contains(message, CanaryStsAccount) then CanarytokensAccount
    else RealKey
  }

  /**
   * A canarytokens user ARN also holds the account-level prefix of the third test, so only the
   * order of the tests makes it a key verdict rather than an account verdict.
   */
  lemma CanaryUserAlsoMatchesAccount(message: string)
    requires Contains(message, CanaryUser)
    ensures Contains(message, CanaryIamAccount)
    ensures Classify(message) == CanarytokensKey
  {
    var i := Find(message, CanaryUser).value;
    assert CanaryUser[..|CanaryIamAccount|] == CanaryIamAccount;
    assert message[i..i + |CanaryUser|] == CanaryUser;
    assert message[i..i + |CanaryIamAccount|] == CanaryUser[..|CanaryIamAccount|];
    OccursContains(message, CanaryIamAccount, i);
  }

  /** The SpaceCrab verdict needs both the IAM prefix and the SpaceCrab path, and no canarytokens user. */
  lemma SpaceCrabNeedsBoth(message: string)
    ensures Classify(message) == SpaceCrabKey <==>
      !Contains(message, CanaryUser) && Contains(message, IamPrefix) && Contains(message, SpaceCrabPath)
  {
  }

  /** The account verdict fires on either the IAM or the STS prefix of the canarytokens account. */
  lemma AccountEitherPrefix(message: string)
    requires !Contains(message, CanaryUser) && !(Contains(message, IamPrefix) && Contains(message, SpaceCrabPath))
    ensures Classify(message) == CanarytokensAccount <==>
      Contains(message, CanaryIamAccount) || Contains(message, CanaryStsAccount)
  {
  }

  /** An STS ARN of the canarytokens account never reaches the SpaceCrab test's IAM prefix by itself. */
  lemma StsAccountVerdict(message: string)
    requires Contains(message, CanaryStsAccount) && !Contains(message, CanaryUser)
    requires !Contains(message, SpaceCrabPath)
    ensures Classify(message) == CanarytokensAccount
  {
  }

  /** The keys are taken as real exactly when none of the markers occurs. */
  lemma RealWhenNoMarker(message: string)
    ensures Classify(message) == RealKey <==>
      !Contains(message, CanaryUser) && !(Contains(message, IamPrefix) && Contains(message, SpaceCrabPath)) &&
      !Contains(message, CanaryIamAccount) && !Contains(message, CanaryStsAccount)
  {
  }

  // ---------------------------------------------------------------------------------------------
  // `re.search('arn:.* is not', message)`
  // ---------------------------------------------------------------------------------------------

  const ArnStart: string := "arn:"
  const ArnEnd: string := " is not"

  /** No line break among `m[lo..hi]`: the regular expression's `.` matches any other character. */
  predicate NoBreak(m: string, lo: int, hi: int) {
    forall t :: lo <= t < hi && 0 <= t < |m| ==> m[t] != '\n'
  }

  /** The pattern matches `m[i..j + 7]`: "arn:" at `i`, a break-free run, " is not" at `j`. */
  predicate MatchAt(m: string, i: int, j: int) {
    OccursAt(m, ArnStart, i) && i + |ArnStart| <= j && OccursAt(m, ArnEnd, j) && NoBreak(m, i + |ArnStart|, j)
  }

  /** The index of the first line break at or after `k`, or the length of the text. */
  function LineEnd(m: string, k: nat): (r: nat)
    requires k <= |m|
    ensures k <= r <= |m| && NoBreak(m, k, r)
    ensures r < |m| ==> m[r] == '\n'
    decreases |m| - k
  {
    if k == |m| || m[k] == '\n' then k else LineEnd(m, k + 1)
  }

  /** The last occurrence of `p` lying within `m[lo..hi]`. */
  function LastOccurrence(m: string, p: string, lo: nat, hi: nat): (r: Option<nat>)
    requires hi <= |m|
    ensures r.Some? ==> lo <= r.value && r.value + |p| <= hi && OccursAt(m, p, r.value)
    ensures r.Some? ==> forall j :: r.value < j && j + |p| <= hi ==> !OccursAt(m, p, j)
    ensures r.None? ==> forall j :: lo <= j && j + |p| <= hi ==> !OccursAt(m, p, j)
    decreases hi
  {
    if hi < lo + |p| then None
    else if m[hi - |p|..hi] == p then Some(hi - |p|)
    else if hi == 0 then None
    else
      assert !OccursAt(m, p, hi - |p|);
      LastOccurrence(m, p, lo, hi - 1)
  }

  /** Within one line a match can end exactly where an " is not" fits before the line break. */
  lemma MatchInLine(m: string, i: nat, j: int)
    requires OccursAt(m, ArnStart, i)
    ensures MatchAt(m, i, j) <==>
      i + |ArnStart| <= j && j + |ArnEnd| <= LineEnd(m, i + |ArnStart|) && OccursAt(m, ArnEnd, j)
  {
  }

  /**
   * The leftmost match at or after `start`, as a pair (`i`, `j`) with the match `m[i..j + 7]`:
   * the first "arn:" that has an " is not" after it on its line, and the last such " is not".
   */
  function Search(m: string, start: nat): (r: Option<(nat, nat)>)
    ensures r.Some? ==> start <= r.value.0 && MatchAt(m, r.value.0, r.value.1)
    ensures r.Some? ==> forall j :: r.value.1 < j ==> !MatchAt(m, r.value.0, j)
    ensures r.Some? ==> forall i, j :: start <= i < r.value.0 ==> !MatchAt(m, i, j)
    ensures r.None? ==> forall i, j :: start <= i ==> !MatchAt(m, i, j)
    decreases |m| - start
  {
    if start + |ArnStart| > |m| then None
    else if m[start..start + |ArnStart|] != ArnStart then Search(m, start + 1)
    else
      var e := LineEnd(m, start + |ArnStart|);
      match LastOccurrence(m, ArnEnd, start + |ArnStart|, e)
      case None =>
        NoEndInLine(m, start);
        Search(m, start + 1)
      case Some(j) =>
        LastEndInLine(m, start, j);
        Some((start, j))
  }

  /** An "arn:" whose line holds no " is not" after it starts no match. */
  lemma NoEndInLine(m: string, start: nat)
    requires OccursAt(m, ArnStart, start)
    requires LastOccurrence(m, ArnEnd, start + |ArnStart|, LineEnd(m, start + |ArnStart|)).None?
    ensures forall j :: !MatchAt(m, start, j)
  {
    forall j ensures !MatchAt(m, start, j) {
      MatchInLine(m, start, j);
    }
  }

  /** An "arn:" whose line holds an " is not" after it: the last of them ends the longest match. */
  lemma LastEndInLine(m: string, start: nat, j: nat)
    requires OccursAt(m, ArnStart, start)
    requires LastOccurrence(m, ArnEnd, start + |ArnStart|, LineEnd(m, start + |ArnStart|)) == Some(j)
    ensures MatchAt(m, start, j)
    ensures forall j' :: j < j' ==> !MatchAt(m, start, j')
  {
    MatchInLine(m, start, j);
    forall j' | j < j' ensures !MatchAt(m, start, j') {
      MatchInLine(m, start, j');
    }
  }

  /** `match.group()[:-7]`: the matched text without its closing " is not". */
  function ExtractArn(message: string): (arn: Option<string>)
    ensures arn.Some? ==> StartsWith(arn.value, ArnStart) && NoBreak(arn.value, 0, |arn.value|)
  {
    match Search(message, 0)
    case None => None
    case Some((i, j)) =>
      var a := message[i..j];
      assert a[..|ArnStart|] == message[i..i + |ArnStart|];
      Some(a)
  }

  /** The search finds a match exactly when the pattern matches somewhere. */
  lemma ExtractArnIff(message: string)
    ensures ExtractArn(message).Some? <==> exists i, j :: MatchAt(message, i, j)
  {
    if exists i, j :: MatchAt(message, i, j) {
      var i, j :| MatchAt(message, i, j);
      assert i >= 0;
    }
  }

  /** A match with no match starting earlier and none on its start ending later is the one the search finds. */
  lemma SearchUnique(m: string, i: nat, j: nat)
    requires MatchAt(m, i, j)
    requires forall i', j' :: 0 <= i' < i ==> !MatchAt(m, i', j')
    requires forall j' :: j < j' ==> !MatchAt(m, i, j')
    ensures Search(m, 0) == Some((i, j))
  {
    var r := Search(m, 0);
    assert r.Some?;
    assert r.value.0 == i;
  }

  lemma NoEarlierStart(pre: string, tail: string, i': nat, j': int)
    requires !Contains(pre + "arn", ArnStart) && StartsWith(tail, ArnStart) && i' < |pre|
    ensures !MatchAt(pre + tail, i', j')
  {
    var m := pre + tail;
    if OccursAt(m, ArnStart, i') {
      var t := pre + "arn";
      assert tail[..3] == "arn";
      assert m[i'..i' + |ArnStart|] == t[i'..i' + |ArnStart|];
      OccursContains(t, ArnStart, i');
    }
  }

  lemma NoLaterEnd(front: string, rest: string, i: int, j': int)
    requires !Contains("is not" + rest, ArnEnd) && |front| < j'
    ensures !MatchAt(front + ArnEnd + rest, i, j')
  {
    var m := front + ArnEnd + rest;
    var a := front + " ";
    var t := "is not" + rest;
    assert ArnEnd == " " + "is not";
    Assoc(front, " ", "is not");
    Assoc(a, "is not", rest);
    assert m == a + t;
    if OccursAt(m, ArnEnd, j') {
      SliceOfBack(a, t, j', j' + |ArnEnd|);
      OccursContains(t, ArnEnd, j' - |a|);
    }
  }

  /**
   * A message "... arn:NAME is not ..." with no earlier "arn:", no line break in NAME and no later
   * " is not" gives NAME's full ARN.
   */
  lemma ExtractArnOf(pre: string, name: string, rest: string)
    requires !Contains(pre + "arn", ArnStart)
    requires '\n' !in name
    requires !Contains("is not" + rest, ArnEnd)
    ensures ExtractArn(pre + ArnStart + name + ArnEnd + rest) == Some(ArnStart + name)
  {
    var m := pre + ArnStart + name + ArnEnd + rest;
    var j := |pre + ArnStart + name|;
    ArnMatch(pre, name, rest);
    NoEarlierMatch(pre, name, rest);
    NoLaterMatch(pre, name, rest);
    SearchUnique(m, |pre|, j);
    assert m[|pre|..j] == ArnStart + name;
  }

  lemma ArnMatch(pre: string, name: string, rest: string)
    requires '\n' !in name
    ensures MatchAt(pre + ArnStart + name + ArnEnd + rest, |pre|, |pre + ArnStart + name|)
  {
    var front := pre + ArnStart + name;
    var m := front + ArnEnd + rest;
    var i := |pre|;
    var j := |front|;
    assert m[i..i + |ArnStart|] == ArnStart;
    assert m[j..j + |ArnEnd|] == ArnEnd;
    assert forall t :: i + |ArnStart| <= t < j ==> m[t] == name[t - i - |ArnStart|];
  }

  lemma NoEarlierMatch(pre: string, name: string, rest: string)
    requires !Contains(pre + "arn", ArnStart)
    ensures forall i', j' :: 0 <= i' < |pre| ==> !MatchAt(pre + ArnStart + name + ArnEnd + rest, i', j')
  {
    var m := pre + ArnStart + name + ArnEnd + rest;
    var tail := ArnStart + name + ArnEnd + rest;
    assert m == pre + tail;
    assert tail[..|ArnStart|] == ArnStart;
    forall i', j' | 0 <= i' < |pre|
      ensures !MatchAt(m, i', j')
    {
      NoEarlierStart(pre, tail, i', j');
    }
  }

  lemma NoLaterMatch(pre: string, name: string, rest: string)
    requires !Contains("is not" + rest, ArnEnd)
    ensures forall j' :: |pre + ArnStart + name| < j' ==> !MatchAt(pre + ArnStart + name + ArnEnd + rest, |pre|, j')
  {
    var front := pre + ArnStart + name;
    forall j' | |front| < j'
      ensures !MatchAt(front + ArnEnd + rest, |pre|, j')
    {
      NoLaterEnd(front, rest, |pre|, j');
    }
  }

  // ---------------------------------------------------------------------------------------------
  // The whole check
  // ---------------------------------------------------------------------------------------------

  /** What the `tag_resource` call returned. */
  datatype Reply = Succeeded | ClientError(code: string, message: string)

  /** What the script reports. */
  datatype Report = CallSucceeded | Unhandled(code: string) | Checked(verdict: Verdict, arn: Option<string>)

  function Check(reply: Reply): (r: Report)
  {
    match reply
    case Succeeded => CallSucceeded
    case ClientError(code, message) =>
      if code == "AccessDeniedException" then Checked(Classify(message), ExtractArn(message))
      else Unhandled(code)
  }

  /**
   * Every AccessDenied error gets exactly one verdict and the ARN the pattern finds; any other
   * error code is reported as unhandled without looking at the message.
   */
  lemma CheckCases(reply: Reply)
    ensures reply.ClientError? && reply.code == "AccessDeniedException" ==>
      Check(reply) == Checked(Classify(reply.message), ExtractArn(reply.message))
    ensures reply.ClientError? && reply.code != "AccessDeniedException" ==> Check(reply) == Unhandled(reply.code)
    ensures Check(reply).Checked? <==> reply.ClientError? && reply.code == "AccessDeniedException"
  {
  }

  /** A different message with the same other error code gives the same report. */
  lemma UnhandledIgnoresMessage(code: string, m1: string, m2: string)
    requires code != "AccessDeniedException"
    ensures Check(ClientError(code, m1)) == Check(ClientError(code, m2)) == Unhandled(code)
  {
  }
}
