/** The dictionary and coding tables returned with the data, contracted to the extracted fields. */
module Contraction {
  import opened Wrappers
  import opened Tables
  import opened Seqs

  function EntryListed(fieldIDs: seq<int>): DictEntry -> bool
  {
    (e: DictEntry) => e.fieldID in fieldIDs
  }

  /** With a non-empty FieldID list, exactly the dictionary lines of the listed fields, in table order;
      with an empty one, the whole dictionary. */
  function ContractDictionary(dict: seq<DictEntry>, fieldIDs: seq<int>): (r: seq<DictEntry>)
    ensures fieldIDs == [] ==> r == dict
    ensures fieldIDs != [] ==> forall e :: e in r <==> e in dict && e.fieldID in fieldIDs
  {
    if fieldIDs == [] then dict
    else
      FilterMembers(dict, EntryListed(fieldIDs));
      Filter(dict, EntryListed(fieldIDs))
  }

  /** The contracted dictionary holds each kept line exactly as often as the dictionary does, so `.item()` sees the same matches. */
  lemma ContractDictionaryCount(dict: seq<DictEntry>, fieldIDs: seq<int>)
    ensures forall e :: multiset(ContractDictionary(dict, fieldIDs))[e] == if fieldIDs == [] || e.fieldID in fieldIDs then multiset(dict)[e] else 0
  {
    if fieldIDs != [] {
      FilterCount(dict, EntryListed(fieldIDs));
    }
  }

  /** The contracted dictionary keeps its lines in table order. */
  lemma ContractDictionaryConcat(a: seq<DictEntry>, b: seq<DictEntry>, fieldIDs: seq<int>)
    ensures ContractDictionary(a + b, fieldIDs) == ContractDictionary(a, fieldIDs) + ContractDictionary(b, fieldIDs)
  {
    if fieldIDs != [] {
      FilterConcat(a, b, EntryListed(fieldIDs));
    }
  }

  /** `Coding.is_in(dictionary.get_column("Coding"))`: some kept dictionary line uses this coding. */
  predicate CodingUsed(c: CodingEntry, dict: seq<DictEntry>)
  {
    exists e :: e in dict && e.coding == Some(c.coding)
  }

  function CodingListed(dict: seq<DictEntry>): CodingEntry -> bool
  {
    (c: CodingEntry) => CodingUsed(c, dict)
  }

  /** With a non-empty FieldID list, exactly the coding lines whose Coding the contracted dictionary
      uses; with an empty one, the whole coding table. */
  function ContractCodings(codings: seq<CodingEntry>, contracted: seq<DictEntry>, fieldIDs: seq<int>): (r: seq<CodingEntry>)
    ensures fieldIDs == [] ==> r == codings
    ensures fieldIDs != [] ==> forall c :: c in r <==> c in codings && CodingUsed(c, contracted)
  {
    if fieldIDs == [] then codings
    else
      FilterMembers(codings, CodingListed(contracted));
      Filter(codings, CodingListed(contracted))
  }

  /** The contracted coding table holds each kept line exactly as often as the coding table does. */
  lemma ContractCodingsCount(codings: seq<CodingEntry>, contracted: seq<DictEntry>, fieldIDs: seq<int>)
    ensures forall c :: multiset(ContractCodings(codings, contracted, fieldIDs))[c] == if fieldIDs == [] || CodingUsed(c, contracted) then multiset(codings)[c] else 0
  {
    if fieldIDs != [] {
      FilterCount(codings, CodingListed(contracted));
    }
  }

  /** The contracted coding table keeps its lines in table order. */
  lemma ContractCodingsConcat(a: seq<CodingEntry>, b: seq<CodingEntry>, contracted: seq<DictEntry>, fieldIDs: seq<int>)
    ensures ContractCodings(a + b, contracted, fieldIDs) == ContractCodings(a, contracted, fieldIDs) + ContractCodings(b, contracted, fieldIDs)
  {
    if fieldIDs != [] {
      FilterConcat(a, b, CodingListed(contracted));
    }
  }

  /** The contracted tables stay referentially closed: every coding line kept is used by a dictionary
      line of an extracted field. */
  lemma ContractedCodingsReferToFields(dict: seq<DictEntry>, codings: seq<CodingEntry>, fieldIDs: seq<int>)
    requires fieldIDs != []
    ensures forall c :: c in ContractCodings(codings, ContractDictionary(dict, fieldIDs), fieldIDs) ==>
      exists e :: e in dict && e.fieldID in fieldIDs && e.coding == Some(c.coding)
  {
    var d := ContractDictionary(dict, fieldIDs);
    forall c | c in ContractCodings(codings, d, fieldIDs)
      ensures exists e :: e in dict && e.fieldID in fieldIDs && e.coding == Some(c.coding)
    {
      var e :| e in d && e.coding == Some(c.coding);
    }
  }
}
