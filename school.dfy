/** The School record (models/school.js). */
module SchoolSchema {
  import opened Wrappers
  import opened JsText
  import opened Documents

  datatype School = School(
    schoolName: string,
    schoolEmail: string,
    schoolType: string,
    schoolCode: string,
    schoolPhoneNumber: int,
    country: string,
    state: string,
    schoolAddress: string,
    isVerified: bool)

  /**
   * The values handed to `new school({...})`. A missing string is "";
   * a missing phone number, or one that does not cast to a Number, is None.
   */
  datatype SchoolInput = SchoolInput(
    schoolName: string,
    schoolEmail: string,
    schoolType: string,
    schoolCode: string,
    schoolPhoneNumber: Option<int>,
    country: string,
    state: string,
    schoolAddress: string)

  // ---------------------------------------------------------------------
  // The schoolEmail validator /^[^\s@]+@[^\s@]+\.[^\s@]{2,}$/

  predicate IsEmailChar(c: char) {
    !IsWhitespace(c) && c != '@'
  }

  predicate AllEmailChars(s: string) {
    forall i :: 0 <= i < |s| ==> IsEmailChar(s[i])
  }

  /**
   * The regular expression read off by positions: the '@' at `at` has at
   * least one character before it, the '.' at `dot` has at least one
   * character between it and the '@' and at least two UTF-16 code units
   * after it (the pattern has no `u` flag, so `{2,}` counts code units),
   * and every character other than the '@' is neither whitespace nor '@'.
   */
  predicate EmailSplit(s: string, at: nat, dot: nat) {
    && 1 <= at && at + 2 <= dot < |s|
    && Utf16Length(s[dot + 1..]) >= 2
    && s[at] == '@' && s[dot] == '.'
    && forall i :: 0 <= i < |s| && i != at ==> IsEmailChar(s[i])
  }

  ghost predicate MatchesEmailPattern(s: string) {
    exists at: nat, dot: nat :: EmailSplit(s, at, dot)
  }

  /**
   * The validator as a matcher runs it: locate the '@', check the part
   * before it and the part after it, then take the first '.' after the
   * domain's first character and count the code units that follow it.
   */
  predicate ValidSchoolEmail(s: string) {
    match IndexOf(s, '@')
    case None => false
    case Some(at) =>
      var local, domain := s[..at], s[at + 1..];
      && at >= 1 && AllEmailChars(local) && AllEmailChars(domain) && |domain| >= 2
      && match IndexOf(domain[1..], '.')
         case None => false
         case Some(k) => AtLeastTwoUnits(domain[k + 2..])
  }

  /** The matcher accepts exactly the language of the regular expression. */
  lemma ValidSchoolEmailIffPattern(s: string)
    ensures ValidSchoolEmail(s) <==> MatchesEmailPattern(s)
  {
    if ValidSchoolEmail(s) {
      MatcherFindsSplit(s);
    }
    if MatchesEmailPattern(s) {
      var at: nat, dot: nat :| EmailSplit(s, at, dot);
      SplitPassesMatcher(s, at, dot);
    }
  }

  /** What the matcher accepts, the pattern matches, splitting at the '@' and the first '.' after it. */
  lemma MatcherFindsSplit(s: string)
    requires ValidSchoolEmail(s)
    ensures MatchesEmailPattern(s)
  {
    var at := IndexOf(s, '@').value;
    var domain := s[at + 1..];
    var k := IndexOf(domain[1..], '.').value;
    var dot := at + 2 + k;
    assert s[dot] == domain[1 + k];
    assert s[dot + 1..] == domain[k + 2..];
    AtLeastTwoUnitsIff(domain[k + 2..]);
    forall i | 0 <= i < |s| && i != at ensures IsEmailChar(s[i]) {
      if i < at {
        assert s[i] == s[..at][i];
      } else {
        assert s[i] == domain[i - at - 1];
      }
    }
    assert EmailSplit(s, at, dot);
  }

  /**
   * What the pattern matches, the matcher accepts: the first '.' it finds
   * is at or before the pattern's '.', so at least as many code units follow it.
   */
  lemma SplitPassesMatcher(s: string, at: nat, dot: nat)
    requires EmailSplit(s, at, dot)
    ensures ValidSchoolEmail(s)
  {
    assert IndexOf(s, '@') == Some(at) by {
      forall i | 0 <= i < at ensures s[i] != '@' {
        assert IsEmailChar(s[i]);
      }
      IndexOfFirst(s, '@', at);
    }
    var domain := s[at + 1..];
    assert AllEmailChars(s[..at]) by {
      forall i | 0 <= i < at ensures IsEmailChar(s[..at][i]) {
        assert s[..at][i] == s[i];
      }
    }
    assert AllEmailChars(domain) by {
      forall i | 0 <= i < |domain| ensures IsEmailChar(domain[i]) {
        assert domain[i] == s[at + 1 + i];
      }
    }
    var tail := domain[1..];
    assert tail[dot - at - 2] == '.';
    var k := IndexOf(tail, '.').value;
    assert AtLeastTwoUnits(domain[k + 2..]) by {
      assert domain[dot - at..] == s[dot + 1..];
      Utf16LengthOfSuffix(domain, k + 2, dot - at);
      AtLeastTwoUnitsIff(domain[k + 2..]);
    }
  }

  /**
   * The pattern counts the characters after the last '.' in UTF-16 code
   * units, as JavaScript does: a single character above U+FFFF suffices.
   */
  lemma AstralTopLevelDomainAccepted()
    ensures ValidSchoolEmail("a@b.\U{1F600}")
  {
    var s := "a@b.\U{1F600}";
    assert s[4..] == ['\U{1F600}'];
    assert Utf16Length(s[4..]) == 2 by {
      assert s[4..][1..] == [];
    }
    SplitPassesMatcher(s, 1, 3);
  }

  /** ... while a single character of the Basic Multilingual Plane does not. */
  lemma OneUnitTopLevelDomainRefused()
    ensures !ValidSchoolEmail("a@b.c")
  {
    assert IndexOf("a@b.c", '@') == Some(1);
    assert "a@b.c"[2..][1..] == ".c";
    assert IndexOf(".c", '.') == Some(0);
    assert "a@b.c"[2..][2..] == "c";
  }

  /** An address the validator accepts holds no whitespace at all, and exactly one '@'. */
  lemma ValidSchoolEmailShape(s: string)
    requires ValidSchoolEmail(s)
    ensures NoWhitespace(s)
    ensures exists at :: 0 < at < |s| && s[at] == '@' && forall i :: 0 <= i < |s| && s[i] == '@' ==> i == at
  {
    ValidSchoolEmailIffPattern(s);
    var at: nat, dot: nat :| EmailSplit(s, at, dot);
    assert forall i :: 0 <= i < |s| && s[i] == '@' ==> i == at;
  }

  // ---------------------------------------------------------------------
  // Construction, setters, defaults and validation

  /**
   * A School document as the store keeps it: every required path is
   * present, schoolEmail is stored lower-cased and trimmed and passes the
   * validator.
   */
  predicate ValidSchool(s: School) {
    && s.schoolName != [] && s.schoolType != [] && s.schoolCode != []
    && s.country != [] && s.state != [] && s.schoolAddress != []
    && s.schoolEmail != [] && IsLower(s.schoolEmail) && IsTrimmed(s.schoolEmail)
    && ValidSchoolEmail(s.schoolEmail)
  }

  /** Every required path holds a value. */
  predicate RequiredPresent(input: SchoolInput) {
    && input.schoolName != [] && input.schoolType != [] && input.schoolCode != []
    && input.schoolPhoneNumber.Some? && input.country != [] && input.state != [] && input.schoolAddress != []
  }

  /**
   * `new school({..., isVerified: false})` followed by the validation
   * `save()` runs: setters apply to schoolEmail, and the document is
   * rejected (None) when a required path is missing or the normalised
   * email fails the validator.
   */
  function NewSchool(input: SchoolInput): (r: Option<School>)
    ensures r.Some? <==> RequiredPresent(input) && ValidSchoolEmail(LowerTrim(input.schoolEmail))
    ensures r.Some? ==> ValidSchool(r.value) && !r.value.isVerified
    ensures r.Some? ==> r.value.schoolEmail == LowerTrim(input.schoolEmail) && r.value.schoolCode == input.schoolCode
  {
    var email := LowerTrim(input.schoolEmail);
    if RequiredPresent(input) && ValidSchoolEmail(email) then
      LowerTrimIdempotent(input.schoolEmail);
      Some(School(input.schoolName, email, input.schoolType, input.schoolCode,
                  input.schoolPhoneNumber.value, input.country, input.state, input.schoolAddress, false))
    else
      None
  }

  /** The unique indexes on schoolEmail and schoolCode. */
  predicate SchoolsUnique(docs: map<ObjectId, School>) {
    forall a, b :: a in docs && b in docs && a != b ==>
      docs[a].schoolEmail != docs[b].schoolEmail && docs[a].schoolCode != docs[b].schoolCode
  }

  /** Saving `s` as a new document would violate a unique index. */
  predicate SchoolSaveConflict(docs: map<ObjectId, School>, s: School) {
    exists k :: k in docs && (docs[k].schoolEmail == s.schoolEmail || docs[k].schoolCode == s.schoolCode)
  }

  /** A save the unique indexes let through keeps them satisfied. */
  lemma InsertKeepsSchoolsUnique(docs: map<ObjectId, School>, id: ObjectId, s: School)
    requires SchoolsUnique(docs) && id !in docs && !SchoolSaveConflict(docs, s)
    ensures SchoolsUnique(docs[id := s])
  {
  }

  /**
   * When no stored school has the new school's email, the unique indexes
   * reject its save exactly when its schoolCode is taken.
   */
  lemma SaveConflictIsCodeClash(docs: map<ObjectId, School>, s: School)
    requires forall k :: k in docs ==> docs[k].schoolEmail != s.schoolEmail
    ensures SchoolSaveConflict(docs, s) <==> exists k :: k in docs && docs[k].schoolCode == s.schoolCode
  {
  }
}
