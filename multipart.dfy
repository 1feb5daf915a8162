/**
 * What the upload handler receives from the multipart/form-data machinery
 * (RFC 7578, with the boundary parameter of section 5.1.1 of RFC 2046): the
 * parsed Content-Type parameters, the parsed Content-Disposition of each
 * section, and the forward-only reader that hands the sections out.
 */
module Multipart {
  import opened Utilities
  import opened Text

  /** A parameter of the parsed Content-Type header: its name and its value, None when it has none. */
  datatype Parameter = Parameter(name: string, value: Option<string>)

  /** A parsed Content-Disposition header: its disposition type and its filename parameter (None when absent). */
  datatype Disposition = Disposition(dispositionType: string, fileName: Option<string>)

  /**
   * One section as the reader delivers it: its Content-Disposition as
   * ContentDispositionHeaderValue.TryParse reads it (None when TryParse
   * fails), the value section.Body.Length reports, and the body's bytes.
   */
  datatype Section = Section(disposition: Option<Disposition>, length: int, content: seq<bv8>)

  /** The parameter name compares equal to "boundary" under OrdinalIgnoreCase. */
  predicate IsBoundaryParameter(p: Parameter) {
    EqualsIgnoreCase(p.name, "boundary")
  }

  /** parameters[i] is the first parameter named "boundary". */
  ghost predicate FirstBoundaryAt(parameters: seq<Parameter>, i: int) {
    0 <= i < |parameters| && IsBoundaryParameter(parameters[i]) &&
    forall j :: 0 <= j < i ==> !IsBoundaryParameter(parameters[j])
  }

  /** Parameters.FirstOrDefault(p => p.Name equals "boundary" ignoring case)?.Value. */
  function FindBoundary(parameters: seq<Parameter>): (r: Option<string>)
    ensures (forall j :: 0 <= j < |parameters| ==> !IsBoundaryParameter(parameters[j])) ==> r.None?
    ensures forall i :: FirstBoundaryAt(parameters, i) ==> r == parameters[i].value
  {
    match FirstIndexWhere(parameters, IsBoundaryParameter)
    case None => None
    case Some(i) =>
      assert forall i' :: FirstBoundaryAt(parameters, i') ==> i' == i;
      parameters[i].value
  }

  /** Once a boundary parameter has appeared, later parameters cannot change the boundary. */
  lemma FindBoundaryFirstWins(parameters: seq<Parameter>, later: seq<Parameter>)
    requires exists i :: 0 <= i < |parameters| && IsBoundaryParameter(parameters[i])
    ensures FindBoundary(parameters + later) == FindBoundary(parameters)
  {
    FirstIndexWhereIgnoresSuffix(parameters, later, IsBoundaryParameter);
  }

  /** A form-data section that names a non-empty file. */
  predicate IsFileSection(s: Section) {
    s.disposition.Some? &&
    s.disposition.value.dispositionType == "form-data" &&
    !IsNullOrEmpty(s.disposition.value.fileName)
  }

  /** The blob name a file section is stored under: its file name with the quotes trimmed. */
  function UploadName(s: Section): (name: string)
    requires IsFileSection(s)
    ensures QuoteTrimmed(s.disposition.value.fileName.value, name)
  {
    TrimQuotes(s.disposition.value.fileName.value)
  }

  datatype ReadResult = NextSection(section: Section) | EndOfBody | ReadFailed(message: string)

  /**
   * The request body as MultipartReader presents it, forward only: the
   * sections it decodes, in order, and then either the end of the body or
   * the message of the exception ReadNextSectionAsync throws. position
   * counts the sections handed out so far.
   */
  class SectionStream {
    const sections: seq<Section>
    const failure: Option<string>
    var position: nat

    ghost predicate Valid()
      reads this
    {
      position <= |sections|
    }

    constructor (sections: seq<Section>, failure: Option<string>)
      ensures Valid() && position == 0
      ensures this.sections == sections && this.failure == failure
    {
      this.sections := sections;
      this.failure := failure;
      position := 0;
    }

    /** ReadNextSectionAsync: the next section, or null at the end, or a thrown failure. */
    method ReadNextSection() returns (r: ReadResult)
      requires Valid()
      modifies this
      ensures Valid()
      ensures old(position) < |sections| ==>
        r == NextSection(sections[old(position)]) && position == old(position) + 1
      ensures old(position) == |sections| ==>
        position == old(position) &&
        r == (if failure.Some? then ReadFailed(failure.value) else EndOfBody)
    {
      if position < |sections| {
        r := NextSection(sections[position]);
        position := position + 1;
      } else if failure.Some? {
        r := ReadFailed(failure.value);
      } else {
        r := EndOfBody;
      }
    }
  }
}
