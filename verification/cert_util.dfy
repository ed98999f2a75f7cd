/** cert_util.py: adding a salutation to a recipient's name. */
module CertUtil {
  import opened PyLib

  // ---------------------------------------------------------------- mod_name

  /** mod_name: "Mr. " for a gender starting with 'M', "Ms. " for one starting
      with 'F', the bare name otherwise; the test is case-sensitive, and an empty
      gender fails at gender[0]. The result always ends with the bare name. */
  function ModName(bareName: string, gender: string): (r: Result<string>)
    ensures r.Err? <==> gender == ""
    ensures r.Err? ==> r.error == IndexError
    ensures r.Ok? ==> EndsWith(r.value, bareName)
    ensures r.Ok? && gender[0] == 'M' ==> r.value == "Mr. " + bareName
    ensures r.Ok? && gender[0] == 'F' ==> r.value == "Ms. " + bareName
    ensures r.Ok? && gender[0] != 'M' && gender[0] != 'F' ==> r.value == bareName
  {
    if gender == "" then Err(IndexError)
    else if gender[0] == 'M' then Ok("Mr. " + bareName)
    else if gender[0] == 'F' then Ok("Ms. " + bareName)
    else Ok(bareName)
  }

  // ---------------------------------------------------------------- name_salutation

  /** The patterns are regular expressions, handed to re.sub; the model takes
      them as literal prefixes, which they are when '.' is their only
      metacharacter (a '.' that startswith has matched is a literal '.'). */
  predicate LiteralPattern(p: string)
  {
    forall i :: 0 <= i < |p| ==> p[i] !in "\\^$*+?{}[]()|"
  }

  /** The bare name one iteration of the loop leaves for `pattern`: the name
      without that prefix, stripped, when it starts with it, else the name. */
  function StripPattern(name: string, pattern: string): string
  {
    if StartsWith(name, pattern) then Strip(name[|pattern|..]) else name
  }

  /** The value returned once the bare name is known: the upper-cased initial of
      the gender picks "Mr. " or "Ms. ", otherwise `salut` and a space, if any. */
  function Salute(initial: char, salut: string, bare: string): (r: string)
    ensures EndsWith(r, bare)
    ensures initial == 'M' ==> r == "Mr. " + bare
    ensures initial == 'F' ==> r == "Ms. " + bare
    ensures initial != 'M' && initial != 'F' ==> r == if salut != "" then salut + " " + bare else bare
  {
    if initial == 'M' then "Mr. " + bare
    else if initial == 'F' then "Ms. " + bare
    else if salut != "" then salut + " " + bare
    else bare
  }

  /** What name_salutation returns. Every iteration overwrites the bare name,
      so only the last pattern decides it. An empty gender fails first, at
      gender.upper()[0]; an empty pattern list leaves the bare name unbound. */
  function SalutedName(name: string, gender: string, patterns: seq<string>, salut: string): Result<string>
  {
    if gender == "" then Err(IndexError)
    else if |patterns| == 0 then Err(UnboundLocalError)
    else Ok(Salute(Upper(gender)[0], salut, StripPattern(name, patterns[|patterns| - 1])))
  }

  /** name_salutation: the loop over the strip patterns, then the match on the
      gender's upper-cased initial. */
  method NameSalutation(name: string, gender: string, stripPattern: seq<string>, salut: string)
    returns (r: Result<string>)
    requires forall p :: p in stripPattern ==> LiteralPattern(p)
    ensures r == SalutedName(name, gender, stripPattern, salut)
    ensures |stripPattern| > 0 ==>
      r == SalutedName(name, gender, [stripPattern[|stripPattern| - 1]], salut)
  {
    var bareName: Option<string> := None;  // unbound until the first iteration
    for i := 0 to |stripPattern|
      invariant i == 0 <==> bareName.None?
      invariant i > 0 ==> bareName == Some(StripPattern(name, stripPattern[i - 1]))
    {
      var pattern := stripPattern[i];
      if StartsWith(name, pattern) {
        // re.sub(pattern, "", name, count=1) removes the leftmost match, the prefix
        bareName := Some(Strip(name[|pattern|..]));
      } else {
        bareName := Some(name);
      }
    }
    var upper := Upper(gender);
    if |upper| == 0 {
      return Err(IndexError);
    }
    if bareName.None? {
      return Err(UnboundLocalError);
    }
    r := Ok(Salute(upper[0], salut, bareName.value));
  }

  /** The result of name_salutation ends with the bare name the last pattern leaves. */
  lemma SalutedNameEndsWithBare(name: string, gender: string, patterns: seq<string>, salut: string)
    requires gender != "" && |patterns| > 0
    ensures SalutedName(name, gender, patterns, salut).Ok?
    ensures EndsWith(SalutedName(name, gender, patterns, salut).value,
                     StripPattern(name, patterns[|patterns| - 1]))
  {
  }

  /** mod_name is case-sensitive where name_salutation is not: a lower-case 'm'
      or 'f' leaves the name bare in mod_name, but salutes it in name_salutation. */
  lemma ModNameCaseSensitive(bare: string, gender: string, name: string, patterns: seq<string>, salut: string)
    requires gender != "" && (gender[0] == 'm' || gender[0] == 'f')
    requires |patterns| > 0 && bare == StripPattern(name, patterns[|patterns| - 1])
    ensures ModName(bare, gender) == Ok(bare)
    ensures SalutedName(name, gender, patterns, salut)
         == Ok((if gender[0] == 'm' then "Mr. " else "Ms. ") + bare)
  {
  }

  // ---------------------------------------------------------------- the overwriting loop

  const StandardPatterns: seq<string> := ["Mr.", "Ms.", "Mrs.", "Dr."]

  /** As written, a name carrying "Mr.", "Ms." or "Mrs." keeps it, because the
      last pattern "Dr." does not match and resets the bare name to the whole
      name; a second salutation is put in front. */
  lemma DoubledSalutation(rest: string, gender: string)
    requires gender != "" && UpperChar(gender[0]) == 'M'
    ensures SalutedName("Mr. " + rest, gender, StandardPatterns, "") == Ok("Mr. Mr. " + rest)
  {
    var name := "Mr. " + rest;
    assert StandardPatterns[|StandardPatterns| - 1] == "Dr.";
    assert !StartsWith(name, "Dr.") by {
      assert name[0] == 'M';
    }
    assert Upper(gender)[0] == 'M';
    assert "Mr. " + name == "Mr. Mr. " + rest;
  }

  /** The loop with the evidently intended behaviour: the bare name starts as
      the name, and the first pattern the name starts with is removed. */
  function FirstMatchBare(name: string, patterns: seq<string>): string
    decreases |patterns|
  {
    if |patterns| == 0 then name
    else if StartsWith(name, patterns[0]) then Strip(name[|patterns[0]|..])
    else FirstMatchBare(name, patterns[1..])
  }

  function FirstMatchSalutedName(name: string, gender: string, patterns: seq<string>, salut: string): Result<string>
  {
    if gender == "" then Err(IndexError)
    else Ok(Salute(Upper(gender)[0], salut, FirstMatchBare(name, patterns)))
  }

  /** The first pattern the name starts with is the one removed. */
  lemma {:induction false} FirstMatchBareRemovesFirst(name: string, patterns: seq<string>, j: nat)
    requires j < |patterns| && StartsWith(name, patterns[j])
    requires forall k :: 0 <= k < j ==> !StartsWith(name, patterns[k])
    ensures FirstMatchBare(name, patterns) == Strip(name[|patterns[j]|..])
    decreases j
  {
    if j > 0 {
      assert !StartsWith(name, patterns[0]);
      FirstMatchBareRemovesFirst(name, patterns[1..], j - 1);
    }
  }

  /** With the intended loop, a name carrying one of the standard salutations
      loses it before the gender's salutation is added: no salutation is doubled. */
  lemma NoDoubledSalutation(sal: string, rest: string, gender: string)
    requires sal in StandardPatterns
    requires gender != "" && UpperChar(gender[0]) == 'M'
    requires Strip(rest) == rest
    ensures FirstMatchSalutedName(sal + " " + rest, gender, StandardPatterns, "") == Ok("Mr. " + rest)
  {
    var name := sal + " " + rest;
    var j := if sal == "Mr." then 0 else if sal == "Ms." then 1 else if sal == "Mrs." then 2 else 3;
    assert StandardPatterns[j] == sal;
    assert name[..|sal|] == sal;
    forall k | 0 <= k < j ensures !StartsWith(name, StandardPatterns[k]) {
      assert name[..|sal|] == sal;
      assert name[|sal|] == ' ';
      if j == 2 {
        assert name[2] == 's';
      }
    }
    FirstMatchBareRemovesFirst(name, StandardPatterns, j);
    assert name[|sal|..] == " " + rest;
    StripLeadingSpace(rest);
  }

  lemma StripLeadingSpace(rest: string)
    requires Strip(rest) == rest
    ensures Strip(" " + rest) == rest
  {
    assert (" " + rest)[1..] == rest;
  }
}
