/** The dispatch guard of `SafeToolCallingAgent` (main/agent.py): a tool call is answered with a fixed
    text when it is malformed or names no registered tool, and is handed on unchanged otherwise. */
module Agent {
  import opened PyValues

  const MalformedCall: string := "Malformed tool call: " + "missing 'name' or 'arguments'."

  function UnknownTool(name: string): string
  {
    "Tool '" + name + "' does not exist."
  }

  /** The tools the agent is built with. */
  const AgentTools: set<string> := {"multiplyer", "search_web", "final_answer"}

  /** What `call_tool` does with a call: return a text of its own, or delegate to the base class. */
  datatype Dispatch =
    | Refused(reply: string)
    | Delegated(name: string, arguments: map<string, PyValue>)

  /** `call_tool(name, input)` against the registry `toolMap`. */
  function CallTool(toolMap: set<string>, name: PyValue, input: PyValue): (r: Dispatch)
    ensures r.Delegated? <==> name.PyStr? && input.PyDict? && name.s in toolMap
    ensures r.Delegated? ==> r.name == name.s && r.arguments == input.entries
    ensures !(name.PyStr? && input.PyDict?) ==> r == Refused(MalformedCall)
    ensures name.PyStr? && input.PyDict? && name.s !in toolMap ==> r == Refused(UnknownTool(name.s))
  {
    if !name.PyStr? || !input.PyDict? then Refused(MalformedCall)
    else if name.s !in toolMap then Refused(UnknownTool(name.s))
    else Delegated(name.s, input.entries)
  }

  /** The two refusals are told apart by their text, so a caller can always see which check failed. */
  lemma RefusalsDiffer(name: string)
    ensures UnknownTool(name) != MalformedCall
  {
    assert UnknownTool(name)[0] == 'T' && MalformedCall[0] == 'M';
  }

  /** The malformed-call check comes first: a call whose input is not a dict is refused as malformed
      even when its name is not registered. */
  lemma MalformedBeforeUnknown(toolMap: set<string>, name: string, input: PyValue)
    requires name !in toolMap && !input.PyDict?
    ensures CallTool(toolMap, PyStr(name), input) == Refused(MalformedCall)
    ensures CallTool(toolMap, PyStr(name), input) != Refused(UnknownTool(name))
  {
    RefusalsDiffer(name);
  }

  /** With the agent's own registry, exactly its three tools are delegated. */
  lemma AgentDispatch(name: string, args: map<string, PyValue>)
    ensures CallTool(AgentTools, PyStr(name), PyDict(args)).Delegated?
            <==> name == "multiplyer" || name == "search_web" || name == "final_answer"
    ensures CallTool(AgentTools, PyStr("calculator"), PyDict(args)) == Refused("Tool 'calculator' does not exist.")
  {
  }
}
