/**
 * Which open pull requests take part in a consolidation run: the required
 * labels are read from a comma-separated flag (parseLabels), a pull request
 * qualifies when it carries ANY of them, compared trimmed and lower-cased
 * (hasAnyLabel), and the listing is filtered in order (fetchQualifiedPRs).
 */
module Qualifier {
  import opened Wrappers
  import opened GoStrings
  import opened Sequences

  /**
   * An open pull request as the listing returns it. A label whose name is
   * missing reads as the empty name, as GetName does.
   */
  datatype PullRequest = PullRequest(number: int, title: string, labels: seq<string>)

  // ---------------------------------------------------------------------------
  // parseLabels
  // ---------------------------------------------------------------------------

  /** A comma-separated piece contributes its trimmed text unless that is empty. */
  function CleanPiece(piece: string): (o: Option<string>)
    ensures o.Some? ==> o.value != [] && IsTrimmed(o.value)
  {
    var trimmed := TrimSpace(piece);
    if trimmed != [] then Some(trimmed) else None
  }

  /** The labels kept from the pieces: the non-blank ones, trimmed, in order. */
  function Cleaned(pieces: seq<string>): seq<string> {
    FilterMap(pieces, CleanPiece)
  }

  /** The labels that parseLabels reads from `input`. */
  function LabelsOf(input: string): seq<string> {
    Cleaned(Split(input, ','))
  }

  /** parseLabels: split on commas, trim every piece, drop the empty ones. */
  method ParseLabels(input: string) returns (cleaned: seq<string>)
    ensures cleaned == LabelsOf(input)
    ensures forall k :: 0 <= k < |cleaned| ==> cleaned[k] != [] && IsTrimmed(cleaned[k])
    ensures input == [] ==> cleaned == []
  {
    if input == [] {
      return [];
    }
    var labels := Split(input, ',');
    cleaned := [];
    for i := 0 to |labels|
      invariant cleaned == Cleaned(labels[..i])
      invariant forall k :: 0 <= k < |cleaned| ==> cleaned[k] != [] && IsTrimmed(cleaned[k])
    {
      assert labels[..i + 1][..i] == labels[..i];
      var trimmed := TrimSpace(labels[i]);
      if trimmed != [] {
        cleaned := cleaned + [trimmed];
      }
    }
    assert labels[..|labels|] == labels;
  }

  /**
   * The labels are the non-blank comma-separated pieces of the input, trimmed,
   * in their original order; there are never more labels than pieces.
   */
  lemma LabelsAreOrderedNonBlankPieces(input: string) returns (idx: seq<int>)
    ensures |LabelsOf(input)| <= |Split(input, ',')|
    ensures |idx| == |LabelsOf(input)|
    ensures forall k, l :: 0 <= k < l < |idx| ==> idx[k] < idx[l]
    ensures forall k :: 0 <= k < |idx| ==>
              0 <= idx[k] < |Split(input, ',')| && LabelsOf(input)[k] == TrimSpace(Split(input, ',')[idx[k]])
    ensures forall i :: 0 <= i < |Split(input, ',')| ==>
      (TrimSpace(Split(input, ',')[i]) != [] <==> i in idx)
  {
    idx := FilterMapSelects(Split(input, ','), CleanPiece);
  }

  /** Every label read is non-empty and carries no surrounding white space. */
  lemma LabelsAreTrimmed(input: string)
    ensures forall l :: l in LabelsOf(input) ==> l != [] && IsTrimmed(l)
  {
    forall l | l in LabelsOf(input) ensures l != [] && IsTrimmed(l) {
      FilterMapMember(Split(input, ','), CleanPiece, l);
    }
  }

  /** An input of only commas and white space yields no label. */
  lemma BlankInputHasNoLabels(input: string)
    requires forall k :: 0 <= k < |input| ==> input[k] == ',' || IsSpace(input[k])
    ensures LabelsOf(input) == []
  {
    var pieces := Split(input, ',');
    forall i | 0 <= i < |pieces| ensures CleanPiece(pieces[i]).None? {
      var p := pieces[i];
      JoinSplit(input, ',');
      SplitPieceIn(pieces, ',', i);
      assert AllSpace(p) by {
        forall k | 0 <= k < |p| ensures IsSpace(p[k]) {
          assert p[k] in Join(pieces, ',');
          assert p[k] != ',';
        }
      }
      assert p == p + [] + [];
      assert TrimSpace(p) == [] by {
        TrimSpaceIgnoresPadding(p, [], []);
      }
    }
    FilterMapNone(pieces, CleanPiece);
  }

  /** Every character of a piece occurs in the joined string. */
  lemma {:induction false} SplitPieceIn(pieces: seq<string>, sep: char, i: int)
    requires |pieces| >= 1 && 0 <= i < |pieces|
    ensures forall c :: c in pieces[i] ==> c in Join(pieces, sep)
  {
    if |pieces| > 1 {
      if i > 0 {
        SplitPieceIn(pieces[1..], sep, i - 1);
      }
    }
  }

  // ---------------------------------------------------------------------------
  // hasAnyLabel
  // ---------------------------------------------------------------------------

  /** How hasAnyLabel compares labels: trimmed, then lower-cased. */
  function Normalize(name: string): (n: string)
    ensures IsTrimmed(n)
    ensures forall k :: 0 <= k < |n| ==> !('A' <= n[k] <= 'Z')
  {
    ToLower(TrimSpace(name))
  }

  /** Some label of the pull request equals `req` once both are normalised. */
  predicate Carries(prLabels: seq<string>, req: string) {
    exists l :: l in prLabels && Normalize(l) == Normalize(req)
  }

  /** The any-of rule: the pull request carries at least one required label. */
  predicate Qualifies(prLabels: seq<string>, required: seq<string>) {
    exists req :: req in required && Carries(prLabels, req)
  }

  /** hasAnyLabel: normalise the pull request's labels, then look for any required one. */
  method HasAnyLabel(prLabels: seq<string>, required: seq<string>) returns (found: bool)
    ensures found <==> Qualifies(prLabels, required)
    ensures found ==> |required| > 0 && |prLabels| > 0
  {
    var prLabelsNormalized: seq<string> := [];
    for i := 0 to |prLabels|
      invariant |prLabelsNormalized| == i
      invariant forall k :: 0 <= k < i ==> prLabelsNormalized[k] == Normalize(prLabels[k])
    {
      prLabelsNormalized := prLabelsNormalized + [ToLower(TrimSpace(prLabels[i]))];
    }

    for r := 0 to |required|
      invariant forall k :: 0 <= k < r ==> !Carries(prLabels, required[k])
    {
      var reqNormalized := ToLower(TrimSpace(required[r]));
      for j := 0 to |prLabelsNormalized|
        invariant forall k :: 0 <= k < j ==> prLabelsNormalized[k] != reqNormalized
      {
        if prLabelsNormalized[j] == reqNormalized {
          CarriesAt(prLabels, j, required, r);
          return true;
        }
      }
      NotCarried(prLabels, prLabelsNormalized, required[r]);
    }
    NoneCarried(prLabels, required);
    return false;
  }

  lemma CarriesAt(prLabels: seq<string>, j: int, required: seq<string>, r: int)
    requires 0 <= j < |prLabels| && 0 <= r < |required|
    requires Normalize(prLabels[j]) == Normalize(required[r])
    ensures Qualifies(prLabels, required)
  {
    assert prLabels[j] in prLabels;
    assert required[r] in required;
  }

  lemma NotCarried(prLabels: seq<string>, normalized: seq<string>, req: string)
    requires |normalized| == |prLabels|
    requires forall k :: 0 <= k < |prLabels| ==> normalized[k] == Normalize(prLabels[k])
    requires forall k :: 0 <= k < |normalized| ==> normalized[k] != Normalize(req)
    ensures !Carries(prLabels, req)
  {
    forall l | l in prLabels ensures Normalize(l) != Normalize(req) {
      var k :| 0 <= k < |prLabels| && prLabels[k] == l;
      assert normalized[k] == Normalize(l);
    }
  }

  lemma NoneCarried(prLabels: seq<string>, required: seq<string>)
    requires forall k :: 0 <= k < |required| ==> !Carries(prLabels, required[k])
    ensures !Qualifies(prLabels, required)
  {
    forall req | req in required ensures !Carries(prLabels, req) {
      var k :| 0 <= k < |required| && required[k] == req;
    }
  }

  /** Padding or re-casing a label never changes how it compares. */
  lemma NormalizeIgnoresCaseAndPadding(p: string, s: string, q: string)
    requires AllSpace(p) && AllSpace(q)
    ensures Normalize(p + s + q) == Normalize(s)
    ensures Normalize(ToLower(s)) == Normalize(s)
  {
    TrimSpaceIgnoresPadding(p, s, q);
    TrimSpaceToLowerCommute(s);
    TrimSpaceIdempotent(s);
    TrimSpaceToLowerCommute(TrimSpace(s));
    ToLowerIdempotent(TrimSpace(s));
  }

  /** A trimmed string without upper-case letters is its own normal form. */
  lemma NormalizeFixesNormalForm(s: string)
    requires IsTrimmed(s)
    requires forall k :: 0 <= k < |s| ==> !('A' <= s[k] <= 'Z')
    ensures Normalize(s) == s
  {
    TrimSpaceUnique(s, [], s, []);
  }

  lemma ReadyIsNormal()
    ensures Normalize("ready") == "ready"
  {
    NormalizeFixesNormalForm("ready");
  }

  lemma PaddedReadyIsReady()
    ensures Normalize(" ready ") == Normalize("ready")
  {
    assert [' '] + "ready" + [' '] == " ready ";
    NormalizeIgnoresCaseAndPadding([' '], "ready", [' ']);
  }

  lemma UpperCaseIsLowerCase(s: string)
    requires ToLower(s) == "ready"
    ensures Normalize(s) == Normalize("ready")
  {
    NormalizeIgnoresCaseAndPadding([], s, []);
    assert [] + s + [] == s;
  }

  /** "Ready", " ready " and "READY" are interchangeable. */
  lemma ReadyVariantsAgree()
    ensures Normalize("Ready") == Normalize(" ready ") == Normalize("READY") == "ready"
  {
    ReadyIsNormal();
    PaddedReadyIsReady();
    UpperCaseIsLowerCase("READY");
    UpperCaseIsLowerCase("Ready");
  }

  /** With no required label, or a pull request without labels, nothing qualifies. */
  lemma NothingQualifiesWithoutLabels(prLabels: seq<string>, required: seq<string>)
    requires required == [] || prLabels == []
    ensures !Qualifies(prLabels, required)
  {
  }

  /** Any-of monotonicity: requiring more labels never disqualifies a pull request. */
  lemma QualifiesMonotone(prLabels: seq<string>, required: seq<string>, more: seq<string>)
    requires forall r :: r in required ==> r in more
    requires Qualifies(prLabels, required)
    ensures Qualifies(prLabels, more)
  {
    var req :| req in required && Carries(prLabels, req);
    assert req in more;
  }

  // ---------------------------------------------------------------------------
  // the filter in fetchQualifiedPRs
  // ---------------------------------------------------------------------------

  function Admit(required: seq<string>, pr: PullRequest): Option<PullRequest> {
    if Qualifies(pr.labels, required) then Some(pr) else None
  }

  /** The listed pull requests that qualify, in listing order. */
  function Qualified(prs: seq<PullRequest>, required: seq<string>): seq<PullRequest> {
    FilterMap(prs, pr => Admit(required, pr))
  }

  /** The filter loop of fetchQualifiedPRs over an already fetched listing. */
  method FilterQualified(prs: seq<PullRequest>, required: seq<string>) returns (filtered: seq<PullRequest>)
    ensures filtered == Qualified(prs, required)
    ensures forall k :: 0 <= k < |filtered| ==> Qualifies(filtered[k].labels, required)
  {
    filtered := [];
    for i := 0 to |prs|
      invariant filtered == Qualified(prs[..i], required)
      invariant forall k :: 0 <= k < |filtered| ==> Qualifies(filtered[k].labels, required)
    {
      assert prs[..i + 1][..i] == prs[..i];
      var ok := HasAnyLabel(prs[i].labels, required);
      if ok {
        filtered := filtered + [prs[i]];
      }
    }
    assert prs[..|prs|] == prs;
  }

  /**
   * The qualified pull requests are a subsequence of the listing, in listing
   * order, holding exactly the listed pull requests that qualify.
   */
  lemma QualifiedIsOrderedSelection(prs: seq<PullRequest>, required: seq<string>) returns (idx: seq<int>)
    ensures |idx| == |Qualified(prs, required)|
    ensures forall k, l :: 0 <= k < l < |idx| ==> idx[k] < idx[l]
    ensures forall k :: 0 <= k < |idx| ==> 0 <= idx[k] < |prs| && Qualified(prs, required)[k] == prs[idx[k]]
    ensures forall i :: 0 <= i < |prs| ==> (Qualifies(prs[i].labels, required) <==> i in idx)
  {
    idx := FilterMapSelects(prs, pr => Admit(required, pr));
    forall i | 0 <= i < |prs| ensures Qualifies(prs[i].labels, required) <==> i in idx {
      assert Admit(required, prs[i]).Some? <==> Qualifies(prs[i].labels, required);
    }
  }

  /** A pull request is kept exactly when it is listed and qualifies. */
  lemma QualifiedMember(prs: seq<PullRequest>, required: seq<string>, pr: PullRequest)
    ensures pr in Qualified(prs, required) <==> pr in prs && Qualifies(pr.labels, required)
  {
    FilterMapMember(prs, pr => Admit(required, pr), pr);
    if pr in prs && Qualifies(pr.labels, required) {
      var i :| 0 <= i < |prs| && prs[i] == pr;
      assert Admit(required, prs[i]) == Some(pr);
    }
  }

  /** Requiring more labels never drops a pull request from the qualified list. */
  lemma QualifiedMonotone(prs: seq<PullRequest>, required: seq<string>, more: seq<string>)
    requires forall r :: r in required ==> r in more
    ensures forall pr :: pr in Qualified(prs, required) ==> pr in Qualified(prs, more)
  {
    forall pr | pr in Qualified(prs, required) ensures pr in Qualified(prs, more) {
      QualifiedMember(prs, required, pr);
      QualifiesMonotone(pr.labels, required, more);
      QualifiedMember(prs, more, pr);
    }
  }

  /** An empty label configuration qualifies no pull request at all. */
  lemma NoLabelsQualifyNothing(prs: seq<PullRequest>)
    ensures Qualified(prs, []) == []
  {
    FilterMapNone(prs, pr => Admit([], pr));
  }
}
