/** The uniform response envelope printed for every successful command. */
module Response {
  import opened PyValues

  /** `ResponseBody`: two mutable fields the executor fills in branch by branch. */
  class ResponseBody {
    var allow: Value
    var explain: Value

    /** Both fields default to None. */
    constructor (allow: Value := Null, explain: Value := Null)
      ensures this.allow == allow && this.explain == explain
    {
      this.allow := allow;
      this.explain := explain;
    }

    /** `to_dict`: exactly the keys `allow` and `explain`, holding the current
        field values, whatever those are. */
    function ToDict(): (d: map<string, Value>)
      reads this
      ensures d.Keys == {"allow", "explain"}
      ensures d["allow"] == allow && d["explain"] == explain
    {
      map["allow" := allow, "explain" := explain]
    }
  }

  /** A body built from the two values of any `to_dict` result gives back that
      same dictionary. */
  method ToDictRoundTrip(d: map<string, Value>) returns (d': map<string, Value>)
    requires d.Keys == {"allow", "explain"}
    ensures d' == d
  {
    var body := new ResponseBody(d["allow"], d["explain"]);
    d' := body.ToDict();
    assert d'.Keys == d.Keys;
  }

  /** A default body still serialises both keys, each as None. */
  method DefaultToDict() returns (d: map<string, Value>)
    ensures d.Keys == {"allow", "explain"} && d["allow"] == Null && d["explain"] == Null
  {
    var body := new ResponseBody();
    d := body.ToDict();
  }
}
