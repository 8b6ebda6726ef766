/** Turning a spelled-out e-mail address or password into text, and the
    e-mail syntax check that gates the login. */
module SpokenInput {
  import opened PyStr

  /** The spoken-token substitutions shared by e-mail and password:
      " at " becomes '@', " dot " '.', "underscore" '_' and "dash" '-', in that order. */
  function SpokenSymbols(spoken: string): string
  {
    var s1 := Replace(spoken, " at ", "@");
    var s2 := Replace(s1, " dot ", ".");
    var s3 := Replace(s2, "underscore", "_");
    Replace(s3, "dash", "-")
  }

  /** The e-mail normalisation: the substitutions, then every space removed. */
  function NormaliseEmail(spoken: string): (email: string)
    ensures ' ' !in email
    ensures email == RemoveChar(SpokenSymbols(spoken), ' ')
  {
    ReplaceCharByNothing(SpokenSymbols(spoken), ' ');
    Replace(SpokenSymbols(spoken), " ", "")
  }

  /** The password normalisation: the substitutions, the spoken word " space "
      dropped, then every space removed. */
  function NormalisePassword(spoken: string): (password: string)
    ensures ' ' !in password
    ensures password == RemoveChar(Replace(SpokenSymbols(spoken), " space ", ""), ' ')
  {
    var s := Replace(SpokenSymbols(spoken), " space ", "");
    ReplaceCharByNothing(s, ' ');
    Replace(s, " ", "")
  }

  /** When the word " space " is not spoken, the password is normalised
      exactly like an e-mail address. */
  lemma PasswordLikeEmail(spoken: string)
    requires !Contains(SpokenSymbols(spoken), " space ")
    ensures NormalisePassword(spoken) == NormaliseEmail(spoken)
  {
  }

  /** `\w` of the pattern, restricted to ASCII: letters, digits and '_'. */
  predicate IsWordChar(c: char)
  {
    'a' <= c <= 'z' || 'A' <= c <= 'Z' || '0' <= c <= '9' || c == '_'
  }

  /** The class `[\w\.-]` of the pattern. */
  predicate IsAddressChar(c: char)
  {
    IsWordChar(c) || c == '.' || c == '-'
  }

  predicate AllWord(s: string)
  {
    forall k :: 0 <= k < |s| ==> IsWordChar(s[k])
  }

  predicate AllAddressChars(s: string)
  {
    forall k :: 0 <= k < |s| ==> IsAddressChar(s[k])
  }

  /** The pattern `^[\w\.-]+@[\w\.-]+\.\w+$` read literally: a split of `s`
      at an '@' and at a later '.' with the three parts in their classes. */
  ghost predicate MatchesAt(s: string, at: int, dot: int)
  {
    && 0 < at && at + 1 < dot && dot + 1 < |s|
    && s[at] == '@' && s[dot] == '.'
    && AllAddressChars(s[..at]) && AllAddressChars(s[at + 1..dot]) && AllWord(s[dot + 1..])
  }

  ghost predicate MatchesEmailPattern(s: string)
  {
    exists at, dot :: MatchesAt(s, at, dot)
  }

  /** `is_valid_email`: the local part runs to the first '@'; the domain is
      split at its last '.', which must have text of the class before it and
      word characters after it. */
  predicate IsValidEmail(s: string)
  {
    match Find(s, "@")
    case None => false
    case Some(at) =>
      var domain := s[at + 1..];
      && 0 < at && AllAddressChars(s[..at]) && AllAddressChars(domain)
      && match RFind(domain, '.')
         case None => false
         case Some(d) => 0 < d < |domain| - 1 && AllWord(domain[d + 1..])
  }

  /** The check accepts exactly the strings the regular expression matches. */
  lemma ValidEmailIffPattern(s: string)
    ensures IsValidEmail(s) <==> MatchesEmailPattern(s)
  {
    if IsValidEmail(s) {
      var at := Find(s, "@").value;
      FindChar(s, '@');
      var domain := s[at + 1..];
      var d := RFind(domain, '.').value;
      var dot := at + 1 + d;
      assert s[at + 1..dot] == domain[..d];
      assert s[dot + 1..] == domain[d + 1..];
      assert MatchesAt(s, at, dot);
    }
    if MatchesEmailPattern(s) {
      var at, dot :| MatchesAt(s, at, dot);
      PatternDecides(s, at, dot);
    }
  }

  lemma PatternDecides(s: string, at: int, dot: int)
    requires MatchesAt(s, at, dot)
    ensures IsValidEmail(s)
  {
    NoAtSign(s[..at]);
    FindCharAt(s, '@', at);
    var domain := s[at + 1..];
    var d := dot - at - 1;
    assert domain[..d] == s[at + 1..dot];
    assert domain[d + 1..] == s[dot + 1..];
    DomainDecides(domain, d);
  }

  /** The domain split at a '.' with address characters before it and
      word characters after it is accepted with that '.' as its last one. */
  lemma DomainDecides(domain: string, d: nat)
    requires 0 < d < |domain| - 1 && domain[d] == '.'
    requires AllAddressChars(domain[..d]) && AllWord(domain[d + 1..])
    ensures AllAddressChars(domain) && RFind(domain, '.') == Some(d)
  {
    forall k | 0 <= k < |domain| ensures IsAddressChar(domain[k]) {
      if k < d {
        assert domain[k] == domain[..d][k];
      } else if k > d {
        assert domain[k] == domain[d + 1..][k - d - 1];
      }
    }
    forall j | d < j < |domain| ensures domain[j] != '.' {
      assert domain[j] == domain[d + 1..][j - d - 1];
    }
  }

  /** An accepted address holds exactly one '@'. */
  lemma ValidEmailOneAt(s: string)
    requires IsValidEmail(s)
    ensures Count(s, '@') == 1
  {
    var at := Find(s, "@").value;
    FindChar(s, '@');
    var local, domain := s[..at], s[at + 1..];
    NoAtSign(local);
    NoAtSign(domain);
    assert s == local + ([s[at]] + domain);
    calc {
      Count(s, '@');
      { CountConcat(local, [s[at]] + domain, '@'); }
      Count(local, '@') + Count([s[at]] + domain, '@');
      { assert ([s[at]] + domain)[1..] == domain; }
      0 + 1 + Count(domain, '@');
      1;
    }
  }

  /** An accepted address ends in one or more word characters after a '.'. */
  lemma ValidEmailSuffix(s: string)
    requires IsValidEmail(s)
    ensures exists dot :: 0 < dot < |s| - 1 && s[dot] == '.' && AllWord(s[dot + 1..])
  {
    ValidEmailIffPattern(s);
    var at, dot :| MatchesAt(s, at, dot);
  }

  lemma NoAtSign(s: string)
    requires AllAddressChars(s)
    ensures '@' !in s
  {
    forall k | 0 <= k < |s| ensures s[k] != '@' {
      assert IsAddressChar(s[k]);
    }
  }

  /** No reply in `replies` normalises to an address the check accepts. */
  predicate NoneAccepted(replies: seq<string>)
    decreases |replies|
  {
    replies == []
    || (!IsValidEmail(NormaliseEmail(replies[|replies| - 1])) && NoneAccepted(replies[..|replies| - 1]))
  }

  /** Every reply of a rejected run was itself rejected. */
  lemma {:induction false} NoneAcceptedAt(replies: seq<string>, j: nat)
    requires NoneAccepted(replies) && j < |replies|
    ensures !IsValidEmail(NormaliseEmail(replies[j]))
    decreases |replies|
  {
    if j < |replies| - 1 {
      NoneAcceptedAt(replies[..|replies| - 1], j);
      assert replies[..|replies| - 1][j] == replies[j];
    }
  }

  /** `get_spelled_email`: prompt, normalise, and re-prompt until the result
      is accepted. The replies heard are `utterances`, in order; the source
      keeps asking for ever, so running out of replies yields `None`.
      `heard` is how many replies were used. */
  method GetSpelledEmail(utterances: seq<string>) returns (email: Option<string>, heard: nat)
    ensures heard <= |utterances|
    ensures email.Some? ==> 0 < heard && email.value == NormaliseEmail(utterances[heard - 1])
    ensures email.Some? ==> IsValidEmail(email.value) && NoneAccepted(utterances[..heard - 1])
    ensures email.None? ==> heard == |utterances| && NoneAccepted(utterances)
  {
    heard := 0;
    while heard < |utterances|
      invariant heard <= |utterances|
      invariant NoneAccepted(utterances[..heard])
    {
      var spoken := NormaliseEmail(utterances[heard]);
      if IsValidEmail(spoken) {
        return Some(spoken), heard + 1;
      }
      assert utterances[..heard + 1][..heard] == utterances[..heard];
      heard := heard + 1;
    }
    assert utterances[..heard] == utterances;
    return None, heard;
  }

  /** `get_spoken_password`: one reply, normalised; the on-screen masking
      prints one '*' per character of the result. */
  method GetSpokenPassword(spoken: string) returns (password: string, mask: string)
    ensures password == NormalisePassword(spoken) && ' ' !in password
    ensures |mask| == |password| && forall k :: 0 <= k < |mask| ==> mask[k] == '*'
  {
    password := NormalisePassword(spoken);
    mask := seq(|password|, _ => '*');
  }
}
