/**
 * The Embedding handle of include/elsar/internal/embedding.h: a reference to
 * a record inside an externally owned byte buffer, paired with the record's
 * converted key.
 *
 * `record` is modelled as an index into that buffer; NULL_RECORD stands for
 * `nullptr`. The value `EmbeddingValue` is what arrays of embeddings hold
 * elsewhere in the model; the class `Embedding` models one handle object, so
 * that self-assignment and the reset of a moved-from source can be stated.
 */
module Embeddings {
  import opened Globals

  /** The index standing for `nullptr`. */
  const NULL_RECORD: int := -1

  datatype EmbeddingValue = EmbeddingValue(record: int, convertedKey: u64)
  {
    /** `operator<`: converted keys only; the record plays no part. */
    predicate Less(other: EmbeddingValue)
      ensures Less(other) ==> this != other
    {
      convertedKey < other.convertedKey
    }

    /** Neither is less than the other. */
    predicate Equivalent(other: EmbeddingValue)
    {
      !Less(other) && !other.Less(this)
    }
  }

  /** What a default-constructed or moved-from embedding holds. */
  const EMPTY_EMBEDDING: EmbeddingValue := EmbeddingValue(NULL_RECORD, 0)

  /**
   * `operator<` is a strict weak order whose equivalence classes are the
   * embeddings with equal converted keys.
   */
  lemma {:induction false} LessIsStrictWeakOrder(a: EmbeddingValue, b: EmbeddingValue, c: EmbeddingValue)
    ensures !a.Less(a)
    ensures a.Less(b) ==> !b.Less(a)
    ensures a.Less(b) && b.Less(c) ==> a.Less(c)
    ensures a.Equivalent(b) <==> a.convertedKey == b.convertedKey
    ensures a.Equivalent(b) && b.Equivalent(c) ==> a.Equivalent(c)
  {
  }

  class Embedding {
    var record: int
    var convertedKey: u64

    function Value(): EmbeddingValue
      reads this
    {
      EmbeddingValue(record, convertedKey)
    }

    /** `Embedding()`: a null record and key 0. */
    constructor ()
      ensures Value() == EMPTY_EMBEDDING
    {
      record := NULL_RECORD;
      convertedKey := 0;
    }

    /** `Embedding(record, converted_key)`. */
    constructor Of(record: int, convertedKey: u64)
      ensures Value() == EmbeddingValue(record, convertedKey)
    {
      this.record := record;
      this.convertedKey := convertedKey;
    }

    /** Copy constructor: both fields copied, the source untouched. */
    constructor Copy(other: Embedding)
      ensures Value() == other.Value()
      ensures unchanged(other)
    {
      record := other.record;
      convertedKey := other.convertedKey;
    }

    /** Move constructor: the source's fields are taken, then the source is reset. */
    constructor Move(other: Embedding)
      modifies other
      ensures Value() == old(other.Value())
      ensures other.Value() == EMPTY_EMBEDDING
    {
      record := other.record;
      convertedKey := other.convertedKey;
      new;
      other.record := NULL_RECORD;
      other.convertedKey := 0;
    }

    /** Copy assignment; returns `*this`. Self-assignment changes nothing. */
    method CopyAssign(other: Embedding) returns (self: Embedding)
      modifies this
      ensures self == this
      ensures Value() == old(other.Value())
      ensures unchanged(other)
    {
      if this != other {
        convertedKey := other.convertedKey;
        record := other.record;
      }
      self := this;
    }

    /**
     * Move assignment; returns `*this`. Self-assignment changes nothing;
     * otherwise the target takes both fields and the source is reset.
     */
    method MoveAssign(other: Embedding) returns (self: Embedding)
      modifies this, other
      ensures self == this
      ensures this == other ==> Value() == old(Value())
      ensures this != other ==> Value() == old(other.Value()) && other.Value() == EMPTY_EMBEDDING
    {
      if this != other {
        record := other.record;
        convertedKey := other.convertedKey;
        other.record := NULL_RECORD;
        other.convertedKey := 0;
      }
      self := this;
    }

    /** `operator<`. */
    predicate Less(other: Embedding)
      reads this, other
      ensures Less(other) ==> this != other && Value() != other.Value()
    {
      Value().Less(other.Value())
    }
  }
}
