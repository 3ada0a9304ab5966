/**
  `IsElemsExistInModel`: do all the saved ids still name elements of the wanted class?
  The document is seen as a map from element id to the run-time class of the element.
 */
module ElementCheck {
  import opened Wrappers
  import opened NetRuntime

  /** The run-time class of an element (`Element.GetType()`). */
  datatype ElementClass = DirectShape | ModelLine | ModelArc | OtherClass(name: string)

  /** `doc.GetElement(new ElementId(id))` is `doc[id]` when `id in doc`, and `null` otherwise. */
  type Document = map<Int32, ElementClass>

  /** Every id names an element whose class is exactly `cls`. */
  predicate AllOfClass(doc: Document, ids: seq<Int32>, cls: ElementClass)
  {
    forall k | 0 <= k < |ids| :: ids[k] in doc && doc[ids[k]] == cls
  }

  /**
    `IsElemsExistInModel`: false for a `null` list; otherwise true exactly when every id
    resolves to an element of exactly the class asked for.
   */
  method IsElemsExistInModel(doc: Document, elems: Option<seq<Int32>>, cls: ElementClass) returns (found: bool)
    ensures found <==> elems.Some? && AllOfClass(doc, elems.value, cls)
  {
    if elems.None? {
      return false;
    }
    var ids := elems.value;
    for i := 0 to |ids|
      invariant AllOfClass(doc, ids[..i], cls)
    {
      var id := ids[i];
      assert ids[..i + 1] == ids[..i] + [id];
      AllOfClassAppend(doc, ids[..i], [id], cls);
      if id !in doc || doc[id] != cls {
        assert !AllOfClass(doc, ids, cls);
        return false;
      }
    }
    assert ids[..|ids|] == ids;
    return true;
  }

  /** The check distributes over concatenation: a list passes when both of its parts pass. */
  lemma {:induction false} AllOfClassAppend(doc: Document, a: seq<Int32>, b: seq<Int32>, cls: ElementClass)
    ensures AllOfClass(doc, a + b, cls) <==> AllOfClass(doc, a, cls) && AllOfClass(doc, b, cls)
  {
    if AllOfClass(doc, a, cls) && AllOfClass(doc, b, cls) {
      forall k | 0 <= k < |a + b| ensures (a + b)[k] in doc && doc[(a + b)[k]] == cls {
        if k >= |a| { assert (a + b)[k] == b[k - |a|]; }
      }
    }
    if AllOfClass(doc, a + b, cls) {
      forall k | 0 <= k < |a| ensures a[k] in doc && doc[a[k]] == cls {
        assert (a + b)[k] == a[k];
      }
      forall k | 0 <= k < |b| ensures b[k] in doc && doc[b[k]] == cls {
        assert (a + b)[|a| + k] == b[k];
      }
    }
  }

  /** The class is compared exactly: a non-empty list passes for one class only. */
  lemma ExactClassOnly(doc: Document, ids: seq<Int32>, cls: ElementClass, other: ElementClass)
    requires ids != [] && cls != other
    ensures !(AllOfClass(doc, ids, cls) && AllOfClass(doc, ids, other))
  {
    assert ids[0] in doc ==> doc[ids[0]] != cls || doc[ids[0]] != other;
  }
}
