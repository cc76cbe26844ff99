/** The signable templates of `lib/documents.ts`: the PDF files at the
    root of a bucket, each with a readable label. The three template
    functions differ only in the bucket they list, so one definition with
    the bucket's listing as input stands for all three. */
module Documents {
  import opened Wrappers
  import opened Text
  import opened Seqs

  datatype Template = Template(name: string, url: string, labelText: string)

  /** `name.toLowerCase().endsWith('.pdf')`. */
  predicate IsPdf(name: string) {
    EndsWith(ToLower(name), ".pdf")
  }

  /** `name.replace(/^\d+-/, '')`: one leading run of digits followed by a
      dash is removed. The run is greedy, so it ends at the first
      non-digit, which must be the dash. */
  function StripTimestamp(name: string): (r: string)
    ensures |r| <= |name|
    ensures r != name ==> |DigitPrefix(name)| > 0 && |DigitPrefix(name)| < |name| &&
                          name[|DigitPrefix(name)|] == '-' && r == name[|DigitPrefix(name)| + 1..]
  {
    var digits := DigitPrefix(name);
    if 0 < |digits| < |name| && name[|digits|] == '-' then name[|digits| + 1..] else name
  }

  /** The label: timestamp removed, underscores made spaces, and the first
      lower-case ".pdf" removed. */
  function Label(name: string): (r: string)
    ensures '_' !in r
    ensures |r| <= |name|
  {
    var spaced := ReplaceAllChar(StripTimestamp(name), '_', ' ');
    var r := ReplaceFirst(spaced, ".pdf", "");
    assert forall j :: 0 <= j < |r| ==> r[j] in spaced;
    r
  }

  /** A timestamp prefix is exactly what is stripped. */
  lemma {:induction false} StripTimestampOf(stamp: string, rest: string)
    requires |stamp| > 0 && AllDigits(stamp)
    ensures StripTimestamp(stamp + "-" + rest) == rest
  {
    var name := stamp + "-" + rest;
    DigitPrefixOfDigits(stamp);
    DigitPrefixUpTo(stamp, "-" + rest);
    assert name == stamp + ("-" + rest);
    assert name[|stamp|] == '-';
    assert name[|stamp| + 1..] == rest;
  }

  /** The digit prefix of `digits + rest` is `digits` when `rest` does not
      start with a digit. */
  lemma {:induction false} DigitPrefixUpTo(digits: string, rest: string)
    requires AllDigits(digits)
    requires |rest| > 0 && !IsDigit(rest[0])
    ensures DigitPrefix(digits + rest) == digits
  {
    if |digits| > 0 {
      assert (digits + rest)[1..] == digits[1..] + rest;
      DigitPrefixUpTo(digits[1..], rest);
      assert digits == [digits[0]] + digits[1..];
    } else {
      assert digits + rest == rest;
    }
  }

  /** A name without a timestamp keeps its start. */
  lemma StripTimestampNeedsDigits(name: string)
    requires |name| > 0 && !IsDigit(name[0])
    ensures StripTimestamp(name) == name
  {
  }

  /** The label of a timestamped PDF with an underscore-free base name is
      the base name, the timestamp and extension gone. */
  lemma LabelOfStampedPdf(stamp: string, base: string)
    requires |stamp| > 0 && AllDigits(stamp)
    requires '_' !in base && !Contains(base, ".pdf")
    ensures Label(stamp + "-" + base + ".pdf") == base
  {
    assert stamp + "-" + base + ".pdf" == stamp + "-" + (base + ".pdf");
    StripTimestampOf(stamp, base + ".pdf");
    ReplaceAbsentChar(base + ".pdf", '_', ' ');
    FirstPdfAtEnd(base);
    var s := base + ".pdf";
    assert s[..|base|] + "" + s[|base| + 4..] == base;
  }

  lemma {:induction false} ReplaceAbsentChar(s: string, c: char, d: char)
    requires c !in s
    ensures ReplaceAllChar(s, c, d) == s
  {
    if |s| > 0 {
      ReplaceAbsentChar(s[1..], c, d);
      assert s == [s[0]] + s[1..];
    }
  }

  /** In `base + ".pdf"` with no ".pdf" inside `base`, the first ".pdf" is
      the extension. */
  lemma FirstPdfAtEnd(base: string)
    requires !Contains(base, ".pdf")
    ensures IndexOf(base + ".pdf", ".pdf") == Some(|base|)
  {
    var s := base + ".pdf";
    assert OccursAt(s, ".pdf", |base|);
    var r := IndexOf(s, ".pdf");
    if r.value < |base| {
      NoEarlyOccurrence(base, r.value);
    }
  }

  /** No ".pdf" starts inside `base` when `base` holds none. */
  lemma NoEarlyOccurrence(base: string, k: nat)
    requires !Contains(base, ".pdf") && k < |base|
    ensures !OccursAt(base + ".pdf", ".pdf", k)
  {
    var s := base + ".pdf";
    if k + 4 <= |base| {
      assert s[k..k + 4] == base[k..k + 4];
      assert !OccursAt(base, ".pdf", k);
    } else {
      // the occurrence would put its '.' at `k` and read a letter of
      // "pdf" where the extension's own '.' stands
      var d := |base| - k;
      assert s[|base|] == '.' && ".pdf"[d] != '.';
      assert s[k + d] == s[|base|];
    }
  }

  /** An upper-case ".PDF" file is offered as a template, and its label
      keeps the extension: only a lower-case ".pdf" is removed. */
  lemma UpperCaseExtensionKept(base: string)
    requires |base| > 0 && !IsDigit(base[0]) && '_' !in base && 'p' !in base
    ensures IsPdf(base + ".PDF")
    ensures Label(base + ".PDF") == base + ".PDF"
  {
    UpperCasePdfIsPdf(base + ".PDF");
    LabelOfPlainName(base + ".PDF");
  }

  lemma UpperCasePdfIsPdf(name: string)
    requires EndsWith(name, ".PDF")
    ensures IsPdf(name)
  {
    var n := |name|;
    var low := ToLower(name);
    assert name[n - 4] == '.' && name[n - 3] == 'P' && name[n - 2] == 'D' && name[n - 1] == 'F' by {
      assert name[n - 4..] == ".PDF";
    }
    assert low[n - 4] == '.' && low[n - 3] == 'p' && low[n - 2] == 'd' && low[n - 1] == 'f';
    assert low[n - 4..] == ".pdf";
  }

  /** A name with no timestamp, no underscore and no 'p' is its own label. */
  lemma LabelOfPlainName(name: string)
    requires |name| > 0 && !IsDigit(name[0]) && '_' !in name && 'p' !in name
    ensures Label(name) == name
  {
    StripTimestampNeedsDigits(name);
    ReplaceAbsentChar(name, '_', ' ');
    NotContainedWithout(name, ".pdf", 1);
  }




  /** `getInterpreterTemplates` and its two siblings: the PDFs of the
      listing in listing order, with their public links and labels. The
      listing is `None` when the store reports an error, and is the
      store's first hundred entries by name otherwise. */
  function Templates(listing: Option<seq<string>>, publicUrl: string -> string): (r: seq<Template>)
    ensures listing.None? ==> r == []
    ensures listing.Some? ==> |r| == |Filter(listing.value, IsPdf)|
    ensures listing.Some? ==> forall k :: 0 <= k < |r| ==>
      var name := Filter(listing.value, IsPdf)[k];
      r[k] == Template(name, publicUrl(name), Label(name))
  {
    if listing.None? then []
    else
      var pdfs := Filter(listing.value, IsPdf);
      seq(|pdfs|, k requires 0 <= k < |pdfs| => Template(pdfs[k], publicUrl(pdfs[k]), Label(pdfs[k])))
  }

  /** The names of the templates offered. */
  function TemplateNames(ts: seq<Template>): (r: seq<string>)
    ensures |r| == |ts| && forall k :: 0 <= k < |ts| ==> r[k] == ts[k].name
  {
    seq(|ts|, k requires 0 <= k < |ts| => ts[k].name)
  }

  /** A template is offered for exactly the listed PDFs, whatever the case
      of their extension, and nothing else: the offered names are the
      listing filtered to PDFs. */
  lemma TemplatesAreTheListedPdfs(names: seq<string>, publicUrl: string -> string)
    ensures TemplateNames(Templates(Some(names), publicUrl)) == Filter(names, IsPdf)
    ensures forall name :: name in TemplateNames(Templates(Some(names), publicUrl)) <==> name in names && IsPdf(name)
  {
    var r := Templates(Some(names), publicUrl);
    var pdfs := Filter(names, IsPdf);
    assert TemplateNames(r) == pdfs;
  }

  /** The listing's order by name carries over to the templates. */
  lemma TemplatesKeepNameOrder(names: seq<string>, publicUrl: string -> string)
    requires forall i, j :: 0 <= i < j < |names| ==> StrLe(names[i], names[j])
    ensures var r := Templates(Some(names), publicUrl);
            forall i, j :: 0 <= i < j < |r| ==> StrLe(r[i].name, r[j].name)
  {
    var le := (a: string, b: string) => StrLe(a, b);
    assert Pairwise(names, le);
    FilterKeepsPairwise(names, IsPdf, le);
  }
}
