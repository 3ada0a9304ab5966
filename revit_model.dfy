/**
  The two checks `RevitModelForfard` runs on saved settings before it restores a road axis
  or a set of section lines: read the ids back, then ask whether they still exist.
 */
module RevitModel {
  import opened Wrappers
  import opened NetRuntime
  import opened ElementIds
  import opened ElementCheck

  class RevitModelForfard {
    /** The active document, reduced to the class of each element by id. */
    var doc: Document

    constructor (doc: Document)
      ensures this.doc == doc
    {
      this.doc := doc;
    }

    /** `IsLinesExistInModel`: the saved road-axis ids all name DirectShape elements. */
    method IsLinesExistInModel(elemIdsInSettings: Option<string>) returns (r: Result<bool, Exception>)
      ensures elemIdsInSettings == None || elemIdsInSettings == Some("") ==> r == Ok(false)
      ensures GetIdsByString(elemIdsInSettings).Err? <==> r.Err?
      ensures GetIdsByString(elemIdsInSettings).Err? ==> r == Err(GetIdsByString(elemIdsInSettings).error)
      ensures r.Ok? ==> (r.value <==> exists ids :: GetIdsByString(elemIdsInSettings) == Ok(Some(ids))
                                                    && AllOfClass(doc, ids, DirectShape))
    {
      var parsed := GetIdsByString(elemIdsInSettings);
      if parsed.Err? {
        return Err(parsed.error);
      }
      var found := IsElemsExistInModel(doc, parsed.value, DirectShape);
      return Ok(found);
    }

    /** `IsProfileLinesExistInModel`: the saved section-line ids all name ModelLine elements. */
    method IsProfileLinesExistInModel(elemIdsInSettings: Option<string>) returns (r: Result<bool, Exception>)
      ensures elemIdsInSettings == None || elemIdsInSettings == Some("") ==> r == Ok(false)
      ensures GetIdsByString(elemIdsInSettings).Err? <==> r.Err?
      ensures GetIdsByString(elemIdsInSettings).Err? ==> r == Err(GetIdsByString(elemIdsInSettings).error)
      ensures r.Ok? ==> (r.value <==> exists ids :: GetIdsByString(elemIdsInSettings) == Ok(Some(ids))
                                                    && AllOfClass(doc, ids, ModelLine))
    {
      var parsed := GetIdsByString(elemIdsInSettings);
      if parsed.Err? {
        return Err(parsed.error);
      }
      var found := IsElemsExistInModel(doc, parsed.value, ModelLine);
      return Ok(found);
    }
  }
}
