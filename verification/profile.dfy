/** The interpreter's profile update (`app/dashboard/interpreter/profile/actions.ts`):
    the comma-separated lists the tag editors submit are parsed back into
    lists, the numbers with `parseInt`, and the caller's row is
    overwritten. */
module Profile {
  import opened Wrappers
  import opened Text
  import opened Seqs
  import opened Forms
  import TagInput

  /** The profile columns of an `interpreters` row. */
  datatype ProfileRow = ProfileRow(languages: seq<string>, specializations: seq<string>, bio: Option<string>,
                                   city: Option<string>, hourlyRate: int, yearsExperience: int)

  type Profiles = map<string, ProfileRow>

  /** The action's ends: no user (it returns nothing), saved (and
      redirected), or the store's error. */
  datatype Outcome = NoUser | Saved(profiles: Profiles) | SaveFailed(message: string)

  /** `formData.get(k)?.toString()`: a file stringifies to "[object File]". */
  function Stringified(f: FormData, k: string): (r: Option<string>)
    ensures k !in f <==> r.None?
    ensures k in f && f[k].Text? ==> r == Some(f[k].value)
    ensures k in f && f[k].File? ==> r == Some("[object File]")
  {
    if k !in f then None
    else match f[k]
      case Text(v) => Some(v)
      case File(_) => Some("[object File]")
  }

  function TrimAll(xs: seq<string>): (r: seq<string>)
    ensures |r| == |xs| && forall k :: 0 <= k < |xs| ==> r[k] == Trim(xs[k])
  {
    seq(|xs|, k requires 0 <= k < |xs| => Trim(xs[k]))
  }

  /** `field?.split(",").map(s => s.trim()).filter(Boolean) || []`. */
  function ParseList(field: Option<string>): (r: seq<string>)
    ensures field.None? ==> r == []
    ensures forall k :: 0 <= k < |r| ==> r[k] != "" && IsTrimmed(r[k]) && ',' !in r[k]
  {
    if field.None? then []
    else
      var pieces := Split(field.value, ',');
      var trimmed := TrimAll(pieces);
      forall k | 0 <= k < |trimmed|
        ensures ',' !in trimmed[k]
      {
        TrimKeepsAbsent(pieces[k], ',');
      }
      Filter(trimmed, NonEmpty)
  }

  /** The items parsed from a submitted list are exactly its non-empty
      comma-separated pieces, trimmed, and there are no more of them than
      pieces. */
  lemma ParseListItems(field: string)
    ensures |ParseList(Some(field))| <= |Split(field, ',')|
    ensures forall x :: x in ParseList(Some(field)) <==>
      x != "" && exists k :: 0 <= k < |Split(field, ',')| && Trim(Split(field, ',')[k]) == x
  {
    var pieces := Split(field, ',');
    var trimmed := TrimAll(pieces);
    assert ParseList(Some(field)) == Filter(trimmed, NonEmpty);
    forall x | x in trimmed
      ensures exists k :: 0 <= k < |pieces| && Trim(pieces[k]) == x
    {
      var k :| 0 <= k < |trimmed| && trimmed[k] == x;
      assert Trim(pieces[k]) == x;
    }
    forall x | exists k :: 0 <= k < |pieces| && Trim(pieces[k]) == x
      ensures x in trimmed
    {
      var k :| 0 <= k < |pieces| && Trim(pieces[k]) == x;
      assert trimmed[k] == x;
    }
  }

  /** `Boolean` as a filter on strings. */
  predicate NonEmpty(s: string) {
    s != ""
  }

  lemma TrimKeepsAbsent(s: string, c: char)
    requires c !in s
    ensures c !in Trim(s)
  {
    var t := TrimStart(s);
    var u := TrimEnd(t);
    assert Trim(s) == u;
    forall k | 0 <= k < |u|
      ensures u[k] != c
    {
      assert u[k] == t[..|u|][k] == t[k];
      assert t[k] == s[|s| - |t|..][k] == s[|s| - |t| + k];
    }
  }

  /** Trimmed, non-empty, comma-free items survive being joined with ","
      and parsed back. */
  lemma ParseListOfJoin(xs: seq<string>)
    requires forall k :: 0 <= k < |xs| ==> xs[k] != "" && IsTrimmed(xs[k]) && ',' !in xs[k]
    ensures ParseList(Some(Join(xs, ','))) == xs
  {
    if |xs| > 0 {
      ParseListOfNonEmptyJoin(xs);
    } else {
      assert Join(xs, ',') == "";
      EmptyFieldParsesToNothing();
    }
  }

  lemma ParseListOfNonEmptyJoin(xs: seq<string>)
    requires |xs| > 0
    requires forall k :: 0 <= k < |xs| ==> xs[k] != "" && IsTrimmed(xs[k]) && ',' !in xs[k]
    ensures ParseList(Some(Join(xs, ','))) == xs
  {
    var joined := Join(xs, ',');
    SplitJoin(xs, ',');
    assert Split(joined, ',') == xs;
    TrimAllOfTrimmed(xs);
    FilterAll(xs, NonEmpty);
    ParseListUnfold(joined);
  }

  /** A list written as two comma-joined parts parses to the items of the
      first part followed by those of the second: the order of the
      submitted items is kept. */
  lemma ParseListConcat(a: string, b: string)
    ensures ParseList(Some(a + "," + b)) == ParseList(Some(a)) + ParseList(Some(b))
  {
    var p, q := Split(a, ','), Split(b, ',');
    SplitAtSeparator(a, b, ',');
    assert a + "," + b == a + [','] + b;
    assert TrimAll(p + q) == TrimAll(p) + TrimAll(q);
    FilterConcat(TrimAll(p), TrimAll(q), NonEmpty);
    ParseListUnfold(a + "," + b);
    ParseListUnfold(a);
    ParseListUnfold(b);
  }

  /** A comma-free field is one item, its trimmed text, unless that is
      empty. */
  lemma ParseListOfOnePiece(s: string)
    requires ',' !in s
    ensures ParseList(Some(s)) == (if Trim(s) == "" then [] else [Trim(s)])
  {
    SplitWithoutSeparator(s, ',');
    assert TrimAll([s]) == [Trim(s)];
    ParseListUnfold(s);
    assert Filter([Trim(s)], NonEmpty) == (if Trim(s) == "" then [] else [Trim(s)]) by {
      assert [Trim(s)][1..] == [];
    }
  }

  lemma ParseListUnfold(s: string)
    ensures ParseList(Some(s)) == Filter(TrimAll(Split(s, ',')), NonEmpty)
  {
  }

  lemma TrimAllOfTrimmed(xs: seq<string>)
    requires forall k :: 0 <= k < |xs| ==> IsTrimmed(xs[k])
    ensures TrimAll(xs) == xs
  {
    forall k | 0 <= k < |xs|
      ensures TrimAll(xs)[k] == xs[k]
    {
    }
  }

  /** An empty field is one empty piece, which the filter drops. */
  lemma EmptyFieldParsesToNothing()
    ensures ParseList(Some("")) == []
  {
    assert Split("", ',') == [""];
    assert TrimAll([""]) == [""];
    assert Filter([""], NonEmpty) == [];
  }

  /** What the tag editor submits is what the profile stores: the hidden
      value, parsed by the action, is the tag list itself. */
  lemma SubmittedTagsRoundTrip(st: TagInput.TagState)
    requires forall k :: 0 <= k < |st.tags| ==> st.tags[k] != "" && IsTrimmed(st.tags[k]) && ',' !in st.tags[k]
    ensures ParseList(Some(TagInput.Serialized(st))) == st.tags
  {
    ParseListOfJoin(st.tags);
  }

  /** `parseInt(x) || 0`: the parsed number, with NaN read as 0. */
  function IntOrZero(field: Option<string>): (r: int)
    ensures field.Some? && ParseIntAuto(field.value).Some? ==> r == ParseIntAuto(field.value).value
    ensures field.None? || ParseIntAuto(field.value).None? ==> r == 0
  {
    ParseIntField(field).GetOr(0)
  }

  /** A number written out in decimal is read back as itself. */
  lemma IntOrZeroOfDecimal(n: int)
    ensures IntOrZero(Some(IntToString(n))) == n
  {
    ParseIntAutoRoundTrip(n);
  }

  /** A number written "0x" and hexadecimal digits is read in base 16. */
  lemma IntOrZeroOfHex(hex: string)
    requires |hex| > 0 && AllHexDigits(hex)
    ensures IntOrZero(Some("0x" + hex)) == HexDigitsValue(hex)
  {
    ParseIntAutoOfHex(hex);
  }

  /** `updateProfile(formData)`. An update that matches no row saves
      nothing. */
  function UpdateProfile(profiles: Profiles, user: Option<string>, f: FormData, dbError: Option<string>): (r: Outcome)
    ensures r.NoUser? <==> user.None?
    ensures r.SaveFailed? <==> user.Some? && dbError.Some?
    ensures r.Saved? ==> r.profiles.Keys == profiles.Keys
    ensures r.Saved? ==> forall id :: id in profiles && id != user.value ==> r.profiles[id] == profiles[id]
    ensures r.Saved? && user.value in profiles ==>
      var row := r.profiles[user.value];
      && row.languages == ParseList(Stringified(f, "languages"))
      && row.specializations == ParseList(Stringified(f, "specializations"))
      && row.bio == TextField(f, "bio") && row.city == TextField(f, "city")
      && row.hourlyRate == IntOrZero(TextField(f, "hourlyRate"))
      && row.yearsExperience == IntOrZero(TextField(f, "yearsExperience"))
  {
    if user.None? then NoUser
    else if dbError.Some? then SaveFailed(dbError.value)
    else if user.value !in profiles then Saved(profiles)
    else
      var row := ProfileRow(ParseList(Stringified(f, "languages")), ParseList(Stringified(f, "specializations")),
                            TextField(f, "bio"), TextField(f, "city"),
                            IntOrZero(TextField(f, "hourlyRate")), IntOrZero(TextField(f, "yearsExperience")));
      Saved(profiles[user.value := row])
  }

  /** A list field left out of the form clears the stored list. */
  lemma AbsentListClears(profiles: Profiles, user: string, f: FormData)
    requires user in profiles && "languages" !in f
    ensures var r := UpdateProfile(profiles, Some(user), f, None);
            r.Saved? && r.profiles[user].languages == []
  {
  }
}
