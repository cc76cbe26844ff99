/** The submitted form a server action receives (`FormData`), and
    JavaScript truthiness of the values the actions test with `!x`. */
module Forms {
  import opened Wrappers

  /** The message every server action returns when no user is signed in. */
  const NotAuthenticated := "Not authenticated"

  /** One form entry: typed text or an attached file. */
  datatype Entry = Text(value: string) | File(name: string)

  /** `FormData`, one entry per field name. */
  type FormData = map<string, Entry>

  /** `!!s` for a possibly-null string: present and non-empty. */
  predicate Truthy(s: Option<string>) {
    s.Some? && s.value != ""
  }

  /** `!!formData.get(k)`: a file is always truthy, text when non-empty. */
  predicate Present(f: FormData, k: string) {
    k in f && (f[k].File? || f[k].value != "")
  }

  /** `formData.get(k) as string`: the text of field `k`, `None` for null. */
  function TextField(f: FormData, k: string): (r: Option<string>)
    ensures r.Some? <==> k in f && f[k].Text?
    ensures r.Some? ==> r.value == f[k].value
  {
    if k in f && f[k].Text? then Some(f[k].value) else None
  }

  /** `formData.get(k) as File`: the attached file's name, `None` for null. */
  function FileField(f: FormData, k: string): (r: Option<string>)
    ensures r.Some? <==> k in f && f[k].File?
  {
    if k in f && f[k].File? then Some(f[k].name) else None
  }
}
