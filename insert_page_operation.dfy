/**
 * InsertPageOperation: an immutable value holding the int page number to
 * insert at.  Its equals follows the getClass() idiom: only an object of
 * exactly the same runtime class can be equal, and then exactly when the
 * page numbers agree; its hashCode is HashCodeBuilder(17, 37) over the page
 * number.
 */
module InsertPageOperation {
  import opened JavaInt

  const ClassName: string := "org.sejda.model.parameter.edit.InsertPageOperation"

  datatype InsertPageOperation = InsertPageOperation(pageNumber: int32)

  /** The argument of equals(Object): null, an object whose runtime class
      is runtimeClass and that carries the fields of an InsertPageOperation
      (the class itself or a subclass), or an object of an unrelated class. */
  datatype Obj =
    | Null
    | Operation(runtimeClass: string, op: InsertPageOperation)
    | Unrelated(runtimeClass: string)

  /** The object a value is when passed as an Object. */
  function AsObject(op: InsertPageOperation): Obj
  {
    Operation(ClassName, op)
  }

  /** The constructor accepts every int and getPageNumber gives it back. */
  function New(pageNumber: int32): (op: InsertPageOperation)
    ensures op.pageNumber == pageNumber
  {
    InsertPageOperation(pageNumber)
  }

  /** equals: identity first, then null and runtime class, then the page
      numbers. */
  predicate Equals(self: InsertPageOperation, o: Obj)
  {
    if o == AsObject(self) then true
    else if o.Null? || o.runtimeClass != ClassName || !o.Operation? then false
    else self.pageNumber == o.op.pageNumber
  }

  /** hashCode: HashCodeBuilder(17, 37).append(pageNumber), that is
      17 * 37 + pageNumber in int arithmetic. */
  function HashCode(self: InsertPageOperation): (h: int32)
    ensures (h as int - 629 - self.pageNumber as int) % TwoTo32 == 0
  {
    Wrap(17 * 37 + self.pageNumber as int)
  }

  /** Two operations are equal exactly when they are of the same runtime
      class and insert at the same page; null and any other class, including
      a subclass, are never equal. */
  lemma EqualsMeansSamePage(self: InsertPageOperation, o: Obj)
    ensures Equals(self, o) <==>
      o.Operation? && o.runtimeClass == ClassName && o.op.pageNumber == self.pageNumber
  {
  }

  /** equals is reflexive, symmetric and transitive on operations. */
  lemma EqualsIsEquivalence(a: InsertPageOperation, b: InsertPageOperation, c: InsertPageOperation)
    ensures Equals(a, AsObject(a))
    ensures Equals(a, AsObject(b)) <==> Equals(b, AsObject(a))
    ensures Equals(a, AsObject(b)) && Equals(b, AsObject(c)) ==> Equals(a, AsObject(c))
  {
  }

  /** Equal operations hash alike, and so does nothing else: the hash code
      determines the page number. */
  lemma HashCodeMatchesEquals(a: InsertPageOperation, b: InsertPageOperation)
    ensures Equals(a, AsObject(b)) <==> HashCode(a) == HashCode(b)
  {
    if HashCode(a) == HashCode(b) {
      WrapInjective(629 + a.pageNumber as int, 629 + b.pageNumber as int);
    }
  }
}
