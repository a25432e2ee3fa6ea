/**
 The command-line check at the start of `main`: exactly one argument, whose
 name ends in `.jpg`, `.JPG`, `.jpeg` or `.JPEG`.

 The source takes both candidate extensions with `std::string::substr`
 before comparing either. The start position `length() - 4` (and
 `length() - 5`) is computed in the unsigned `size_t`, so for a shorter
 name it wraps round to a huge position and `substr` throws
 `std::out_of_range`, which nothing catches; the model returns that as the
 error `OutOfRange`.
 */
module Arguments {

  datatype ArgError =
    | WrongArgumentCount  // more or fewer than one argument after the program name
    | NotJpeg             // the name does not end in an accepted extension
    | OutOfRange          // the uncaught exception thrown by substr

  datatype Result<T> = Ok(value: T) | Err(error: ArgError) {
    predicate IsFailure()
    {
      Err?
    }

    function PropagateFailure<U>(): Result<U>
      requires Err?
    {
      Err(error)
    }

    function Extract(): T
      requires Ok?
    {
      value
    }
  }

  /**
   A C string as `main` receives it: each `char` stands for one byte, so
   `|s|` is what `std::string::length()` reports (a UTF-8 name is given as
   its sequence of bytes).
   */
  type CString = s: string | forall k :: 0 <= k < |s| ==> s[k] as int < 256

  /** `size_t` on a 64-bit target: arithmetic modulo 2^64. */
  const SIZE_T_MODULUS: int := 0x1_0000_0000_0000_0000

  function ToSizeT(v: int): (r: nat)
    ensures r < SIZE_T_MODULUS
    ensures 0 <= v < SIZE_T_MODULUS ==> r == v
    ensures -SIZE_T_MODULUS <= v < 0 ==> r == v + SIZE_T_MODULUS
  {
    v % SIZE_T_MODULUS
  }

  /** `s.substr(pos, count)`: throws past the end, otherwise at most `count` characters from `pos`. */
  function Substr(s: string, pos: nat, count: nat): (r: Result<string>)
    ensures r.Ok? <==> pos <= |s|
    ensures r.Err? ==> r.error == OutOfRange
    ensures r.Ok? ==> pos + |r.value| <= |s| && r.value == s[pos..pos + |r.value|]
    ensures r.Ok? ==> |r.value| == count || pos + |r.value| == |s|
    ensures r.Ok? ==> |r.value| <= count
  {
    if pos > |s| then Err(OutOfRange)
    else if pos + count <= |s| then Ok(s[pos..pos + count])
    else Ok(s[pos..])
  }

  predicate EndsWith(s: string, suffix: string)
  {
    |suffix| <= |s| && s[|s| - |suffix|..] == suffix
  }

  /** The extensions the program accepts; letter case must be all lower or all upper. */
  predicate HasJpegExtension(name: string)
  {
    EndsWith(name, ".jpg") || EndsWith(name, ".JPG") || EndsWith(name, ".jpeg") || EndsWith(name, ".JPEG")
  }

  /**
   The argument check of `main` on `argv` (so `argc == |argv|`, and the
   program name is `argv[0]`). On success the input file name is returned.
   */
  function CheckArguments(argv: seq<CString>): (r: Result<string>)
    requires |argv| == 2 ==> |argv[1]| < SIZE_T_MODULUS
    ensures r == Err(WrongArgumentCount) <==> |argv| != 2
    ensures r == Err(OutOfRange) <==> |argv| == 2 && |argv[1]| < 5
    ensures r == Err(NotJpeg) <==> |argv| == 2 && |argv[1]| >= 5 && !HasJpegExtension(argv[1])
    ensures r.Ok? <==> |argv| == 2 && |argv[1]| >= 5 && HasJpegExtension(argv[1])
    ensures r.Ok? ==> r.value == argv[1]
  {
    if |argv| != 2 then Err(WrongArgumentCount)
    else
      var name := argv[1];
      var jpgExtension :- Substr(name, ToSizeT(|name| - 4), 4);
      var jpegExtension :- Substr(name, ToSizeT(|name| - 5), 5);
      if jpgExtension != ".jpg" && jpgExtension != ".JPG" && jpegExtension != ".jpeg" && jpegExtension != ".JPEG"
      then Err(NotJpeg)
      else Ok(name)
  }

  /** Mixed-case spellings of the extensions are refused. */
  lemma MixedCaseRejected(program: CString, name: CString)
    requires 5 <= |name| < SIZE_T_MODULUS
    requires EndsWith(name, ".Jpg") || EndsWith(name, ".Jpeg") || EndsWith(name, ".jPG") || EndsWith(name, ".jpG")
    ensures CheckArguments([program, name]) == Err(NotJpeg)
  {
    var last4, last5 := name[|name| - 4..], name[|name| - 5..];
    assert last5[1..] == last4;
    if EndsWith(name, ".Jpeg") {
      assert last5 == ".Jpeg" && last4[0] == 'J';
      assert last5[1] != ".jpeg"[1] && last5[2] != ".JPEG"[2];
    } else {
      assert last4 == ".Jpg" || last4 == ".jPG" || last4 == ".jpG";
      assert last4[1] != ".jpg"[1] || last4[2] != ".jpg"[2] || last4[3] != ".jpg"[3];
      assert last4[1] != ".JPG"[1] || last4[2] != ".JPG"[2];
      assert last5[1] == '.';
    }
    assert !HasJpegExtension(name);
  }
}
