/** How both controllers clean a request body before it reaches a
    repository. Swagger fills every string of an example body with the
    literal "string", so the controllers treat that literal like `null`. */
module Requests {
  import opened Wrappers
  import opened Text
  import opened Linq

  /** The literal Swagger puts in every string field of an example body. */
  const Placeholder: string := "string"

  /** `x is null || x == "string"`. */
  predicate IsMissing(x: Option<string>) {
    x.None? || x == Some(Placeholder)
  }

  /** `(x is null || x == "string") ? string.Empty : x.Trim()`: a name or a
      title as the controllers store it, already trimmed. */
  function CleanName(x: Option<string>): (r: string)
    ensures Trim(r) == r
    ensures IsMissing(x) ==> r == ""
    ensures !IsMissing(x) ==> r == Trim(x.value)
  {
    if IsMissing(x) then "" else TrimIdempotent(x.value); Trim(x.value)
  }

  /** `(id is null || id == "string") ? Guid.NewGuid().ToString() : id.Trim()`,
      with the new GUID passed in as `newGuid`. */
  function AssignedId(id: Option<string>, newGuid: string): (r: string)
    ensures IsMissing(id) ==> r == newGuid
    ensures !IsMissing(id) ==> r == Trim(id.value) && Norm(r) == Norm(id.value)
  {
    if IsMissing(id) then newGuid else NormOfTrim(id.value); Trim(id.value)
  }

  /** `xs.Where(x => x != "string").ToList()`: every other entry, in order. */
  function WithoutPlaceholders(xs: seq<string>): (r: seq<string>)
    ensures Placeholder !in r
    ensures forall i :: 0 <= i < |r| ==> r[i] in xs
    ensures forall i :: 0 <= i < |xs| && xs[i] != Placeholder ==> xs[i] in r
    ensures r == [] <==> forall i :: 0 <= i < |xs| ==> xs[i] == Placeholder
  {
    var r := Where(xs, (x: string) => x != Placeholder);
    assert r != [] ==> r[0] in xs && r[0] != Placeholder;
    r
  }
}
