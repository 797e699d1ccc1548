/** Serial/SerialPortInfo.cs: how a port found on the machine is listed. */
module PortInfo {
  import opened Base

  /** `string.IsNullOrEmpty`. */
  predicate IsNullOrEmpty(s: Option<string>) {
    s.None? || s.value == ""
  }

  /** How string interpolation renders a string that may be null. */
  function Text(s: Option<string>): string {
    match s
    case None => ""
    case Some(t) => t
  }

  /** `ToString`: the port name alone when there is no description, else
      the name followed by the description in parentheses. The result starts
      with the name and is longer than it exactly when there is a description,
      by the description's length plus three; the description can be read
      back from between the parentheses. A null name with no description
      gives null. */
  function ToString(portName: Option<string>, description: Option<string>): (r: Option<string>)
    ensures IsNullOrEmpty(description) <==> r == portName
    ensures r.Some? ==> Text(portName) <= r.value
    ensures !IsNullOrEmpty(description) ==>
      && r.Some? && |r.value| == |Text(portName)| + |description.value| + 3
      && r.value[|Text(portName)|..|Text(portName)| + 2] == " ("
      && r.value[|Text(portName)| + 2..|r.value| - 1] == description.value
      && r.value[|r.value| - 1] == ')'
  {
    if IsNullOrEmpty(description) then portName
    else
      var r := Text(portName) + " (" + description.value + ")";
      assert r[..|Text(portName)|] == Text(portName);
      Some(r)
  }
}
