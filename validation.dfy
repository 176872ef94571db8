/** The Joi schemas that guard the request bodies. A body is the parsed JSON
    object; `Joi.object({...})` refuses keys it does not list. */
module Validation {
  import opened Results

  /** A JSON value as it can appear in a request body. */
  datatype Value =
    | Null
    | Bool(b: bool)
    | Number(x: real)
    | Str(s: string)
    | Composite  // an array or a nested object; no schema here accepts one

  type Body = map<string, Value>

  predicate IsInteger(x: real) { x.Floor as real == x }

  /** `Joi.object({ name: Joi.string().required() })`: exactly the key `name`,
      holding a string, which Joi requires to be non-empty. */
  function ValidateName(body: Body): (r: Result<string>)
    ensures r.Ok? <==> body.Keys <= {"name"} && "name" in body
                       && body["name"].Str? && body["name"].s != []
    ensures r.Ok? ==> body["name"] == Str(r.value)
    ensures r.Err? ==> r.error == ValidationError
  {
    if "name" !in body || !(body.Keys <= {"name"}) then Err(ValidationError)
    else match body["name"]
      case Str(s) => if s == [] then Err(ValidationError) else Ok(s)
      case _ => Err(ValidationError)
  }

  /** `Joi.object({ score: Joi.number().integer().min(1).max(10).required() })`:
      exactly the key `score`, holding a whole number from 1 to 10. */
  function ValidateScore(body: Body): (r: Result<int>)
    ensures r.Ok? <==> body.Keys <= {"score"} && "score" in body && body["score"].Number?
                       && IsInteger(body["score"].x) && 1.0 <= body["score"].x <= 10.0
    ensures r.Ok? ==> 1 <= r.value <= 10 && body["score"] == Number(r.value as real)
    ensures r.Err? ==> r.error == ValidationError
  {
    if "score" !in body || !(body.Keys <= {"score"}) then Err(ValidationError)
    else match body["score"]
      case Number(x) =>
        if IsInteger(x) && 1.0 <= x <= 10.0 then Ok(x.Floor) else Err(ValidationError)
      case _ => Err(ValidationError)
  }
}
