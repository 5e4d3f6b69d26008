/** `DataCenterDGame.get_prompts` (experiments/data_center.py): the partner's
    name, then the partner's company, then the comma-grouped total are
    substituted into the loaded template; there is no system prompt. */
module DataCenter {
  import opened Wrappers
  import opened Text
  import opened Games

  const CompanyPlaceholder: string := "{PARTNER_COMPANY}"

  /** The data-center prompts: each replacement acts on the previous one's
      output, and every occurrence is replaced. */
  function GetPrompts(template: string, partner: string, company: string, total: int): (p: Prompts)
    ensures p.system == None
    ensures !Contains(p.user, TotalPlaceholder)
  {
    var named := Replace(template, PartnerPlaceholder, partner);
    var placed := Replace(named, CompanyPlaceholder, company);
    GroupThousandsMatchesDecimal(total);
    AmountLeavesNoPlaceholder(placed, GroupThousands(total));
    Prompts(None, Replace(placed, TotalPlaceholder, GroupThousands(total)))
  }

  /** Replacing a whole string that is exactly the pattern gives the
      replacement. */
  lemma ReplaceWhole(pat: string, rep: string)
    requires |pat| > 0
    ensures Replace(pat, pat, rep) == rep
  {
    assert pat[..|pat|] == pat;
    assert pat[|pat|..] == [];
  }

  /** A pattern whose first character occurs in `s` only at its start, and
      which differs from `s` at some position `m`, does not occur in `s`. */
  lemma AbsentUnlessAtStart(s: string, pat: string, m: nat)
    requires m < |pat| && (m < |s| ==> s[m] != pat[m])
    requires forall i :: 0 < i < |s| ==> s[i] != pat[0]
    ensures !Contains(s, pat)
  {
    forall k
      ensures !OccursAt(s, pat, k)
    {
      if k < 0 || |s| < k + |pat| {
      } else if k == 0 {
        assert s[k..k + |pat|][m] == s[m];
      } else {
        assert s[k..k + |pat|][0] == s[k];
      }
    }
  }

  /** A template holding just the total's placeholder becomes the grouped
      total, whose digits without the commas are the plain decimal total. */
  lemma AmountIsGrouped(partner: string, company: string, total: int)
    ensures GetPrompts(TotalPlaceholder, partner, company, total).user == GroupThousands(total)
    ensures StripCommas(GetPrompts(TotalPlaceholder, partner, company, total).user) == Decimal(total)
  {
    AbsentUnlessAtStart(TotalPlaceholder, PartnerPlaceholder, 1);
    ReplaceWithoutOccurrence(TotalPlaceholder, PartnerPlaceholder, partner);
    AbsentUnlessAtStart(TotalPlaceholder, CompanyPlaceholder, 1);
    ReplaceWithoutOccurrence(TotalPlaceholder, CompanyPlaceholder, company);
    ReplaceWhole(TotalPlaceholder, GroupThousands(total));
    GroupThousandsMatchesDecimal(total);
  }

  /** The name goes in first: a partner name that itself reads
      `{PARTNER_COMPANY}` is then filled with the company. */
  lemma NameBeforeCompany(company: string, total: int)
    requires !Contains(company, TotalPlaceholder)
    ensures GetPrompts(PartnerPlaceholder, CompanyPlaceholder, company, total).user == company
  {
    ReplaceWhole(PartnerPlaceholder, CompanyPlaceholder);
    ReplaceWhole(CompanyPlaceholder, company);
    ReplaceWithoutOccurrence(company, TotalPlaceholder, GroupThousands(total));
  }

  /** ... and not the other way round: a company that reads
      `{PARTNER_NAME}` is left as it is. */
  lemma CompanyAfterName(partner: string, total: int)
    ensures GetPrompts(CompanyPlaceholder, partner, PartnerPlaceholder, total).user == PartnerPlaceholder
  {
    CompanySurvivesName(partner);
    ReplaceWhole(CompanyPlaceholder, PartnerPlaceholder);
    NameSurvivesTotal(GroupThousands(total));
  }

  /** The company's placeholder is not touched by the name's substitution. */
  lemma CompanySurvivesName(partner: string)
    ensures Replace(CompanyPlaceholder, PartnerPlaceholder, partner) == CompanyPlaceholder
  {
    assert '{' !in CompanyPlaceholder[1..];
    ReplacePassesThrough(CompanyPlaceholder, [], PartnerPlaceholder, partner, 9);
    assert CompanyPlaceholder + [] == CompanyPlaceholder;
  }

  /** The name's placeholder is not touched by the total's substitution. */
  lemma NameSurvivesTotal(amount: string)
    ensures Replace(PartnerPlaceholder, TotalPlaceholder, amount) == PartnerPlaceholder
  {
    assert '{' !in PartnerPlaceholder[1..];
    ReplacePassesThrough(PartnerPlaceholder, [], TotalPlaceholder, amount, 1);
    assert PartnerPlaceholder + [] == PartnerPlaceholder;
  }

  /** The partner's name stands where its placeholder stood; the later
      substitutions act only on what follows. */
  lemma StatesPartner(pre: string, post: string, partner: string, company: string, total: int)
    requires '{' !in pre && '{' !in partner
    ensures GetPrompts(pre + PartnerPlaceholder + post, partner, company, total).user
            == pre + partner + GetPrompts(post, partner, company, total).user
  {
    var named := Replace(post, PartnerPlaceholder, partner);
    var placed := Replace(named, CompanyPlaceholder, company);
    assert pre + PartnerPlaceholder + post == pre + (PartnerPlaceholder + post);
    ReplaceCleanPrefix(pre, PartnerPlaceholder + post, PartnerPlaceholder, partner);
    ReplaceAtStart(PartnerPlaceholder, post, partner);
    assert pre + (partner + named) == (pre + partner) + named;
    ReplaceCleanPrefix(pre + partner, named, CompanyPlaceholder, company);
    ReplaceCleanPrefix(pre + partner, placed, TotalPlaceholder, GroupThousands(total));
  }

  /** The partner's company stands where its placeholder stood. */
  lemma StatesCompany(pre: string, post: string, partner: string, company: string, total: int)
    requires '{' !in pre && '{' !in company
    ensures GetPrompts(pre + CompanyPlaceholder + post, partner, company, total).user
            == pre + company + GetPrompts(post, partner, company, total).user
  {
    var named := Replace(post, PartnerPlaceholder, partner);
    var placed := Replace(named, CompanyPlaceholder, company);
    var amount := GroupThousands(total);
    assert Replace(pre + CompanyPlaceholder + post, PartnerPlaceholder, partner) == pre + CompanyPlaceholder + named by {
      assert '{' !in CompanyPlaceholder[1..];
      ReplaceSkipsOther(pre, CompanyPlaceholder, post, PartnerPlaceholder, partner, 9);
    }
    assert Replace(pre + CompanyPlaceholder + named, CompanyPlaceholder, company) == pre + company + placed by {
      ReplaceAfterCleanPrefix(pre, CompanyPlaceholder, named, company);
    }
    assert Replace(pre + company + placed, TotalPlaceholder, amount) == pre + company + Replace(placed, TotalPlaceholder, amount) by {
      ReplaceCleanPrefix(pre + company, placed, TotalPlaceholder, amount);
    }
  }

  /** The comma-grouped total stands where its placeholder stood. */
  lemma StatesTotal(pre: string, post: string, partner: string, company: string, total: int)
    requires '{' !in pre
    ensures GetPrompts(pre + TotalPlaceholder + post, partner, company, total).user
            == pre + GroupThousands(total) + GetPrompts(post, partner, company, total).user
  {
    var named := Replace(post, PartnerPlaceholder, partner);
    var placed := Replace(named, CompanyPlaceholder, company);
    var amount := GroupThousands(total);
    assert '{' !in TotalPlaceholder[1..];
    assert Replace(pre + TotalPlaceholder + post, PartnerPlaceholder, partner) == pre + TotalPlaceholder + named by {
      ReplaceSkipsOther(pre, TotalPlaceholder, post, PartnerPlaceholder, partner, 1);
    }
    assert Replace(pre + TotalPlaceholder + named, CompanyPlaceholder, company) == pre + TotalPlaceholder + placed by {
      ReplaceSkipsOther(pre, TotalPlaceholder, named, CompanyPlaceholder, company, 1);
    }
    assert Replace(pre + TotalPlaceholder + placed, TotalPlaceholder, amount) == pre + amount + Replace(placed, TotalPlaceholder, amount) by {
      ReplaceAfterCleanPrefix(pre, TotalPlaceholder, placed, amount);
    }
  }

  /** `AbsentUnlessAtStart` applied: such a string is left unchanged. */
  lemma KeptWithout(s: string, pat: string, rep: string, m: nat)
    requires m < |pat| && (m < |s| ==> s[m] != pat[m])
    requires forall i :: 0 < i < |s| ==> s[i] != pat[0]
    ensures Replace(s, pat, rep) == s
  {
    AbsentUnlessAtStart(s, pat, m);
    ReplaceWithoutOccurrence(s, pat, rep);
  }
}
