/** Vector arithmetic with length checks (Any-out-of-Many-Proofs/utils/Big_Vector_Operate.go):
    the inner product, Hadamard product, addition and subtraction return an error when the
    two vectors differ in length; scaling, negation and inversion have no check. On inputs
    they accept, every operation runs the same loop as utils/Big_Vector_Operate.go. */
module CheckedVectors {
  import opened Field
  import opened Results
  import Vectors

  const LengthError: string := "different length of two vectors"

  /** Cal_IP_Vec */
  method CalIPVec(a: seq<int>, b: seq<int>) returns (r: Result<Scalar>)
    ensures r.Failure? <==> |a| != |b|
    ensures r.Failure? ==> r.error == LengthError
    ensures r.Success? ==> r.value == Vectors.InnerProduct(a, b)
  {
    if |a| != |b| {
      return Failure(LengthError);
    }
    var v := Vectors.CalIPVec(a, b);
    r := Success(v);
  }

  /** Cal_HP_Vec */
  method CalHPVec(a: seq<int>, b: seq<int>) returns (r: Result<seq<Scalar>>)
    ensures r.Failure? <==> |a| != |b|
    ensures r.Failure? ==> r.error == LengthError
    ensures r.Success? ==> r.value == Vectors.Hadamard(a, b)
  {
    if |a| != |b| {
      return Failure(LengthError);
    }
    var v := Vectors.CalHPVec(a, b);
    r := Success(v);
  }

  /** Cal_Sca_Vec: no length check. */
  method CalScaVec(a: seq<int>, c: int) returns (r: seq<Scalar>)
    ensures |r| == |a|
    ensures r == Vectors.Scale(a, c)
  {
    r := Vectors.CalScaVec(a, c);
  }

  /** Cal_Add_Vec */
  method CalAddVec(a: seq<int>, b: seq<int>) returns (r: Result<seq<Scalar>>)
    ensures r.Failure? <==> |a| != |b|
    ensures r.Failure? ==> r.error == LengthError
    ensures r.Success? ==> r.value == Vectors.VecAdd(a, b)
  {
    if |a| != |b| {
      return Failure(LengthError);
    }
    var v := Vectors.CalAddVec(a, b);
    r := Success(v);
  }

  /** Cal_Sub_Vec */
  method CalSubVec(a: seq<int>, b: seq<int>) returns (r: Result<seq<Scalar>>)
    ensures r.Failure? <==> |a| != |b|
    ensures r.Failure? ==> r.error == LengthError
    ensures r.Success? ==> r.value == Vectors.VecSub(a, b)
  {
    if |a| != |b| {
      return Failure(LengthError);
    }
    var v := Vectors.CalSubVec(a, b);
    r := Success(v);
  }

  /** Cal_Neg_Vec: no length check. */
  method CalNegVec(a: seq<int>) returns (r: seq<Scalar>)
    ensures |r| == |a|
    ensures r == Vectors.VecNeg(a)
  {
    r := Vectors.CalNegVec(a);
  }

  /** Cal_Inv_Vec: no length check. */
  method CalInvVec(a: seq<int>) returns (r: seq<Scalar>)
    ensures |r| == |a|
    ensures r == Vectors.VecInv(a)
  {
    r := Vectors.CalInvVec(a);
  }
}
