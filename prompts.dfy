/** The fixed prompt texts of the `/verify-new` handler. */
module Prompts {

  /** The instruction part of the extraction request, sent after the image. */
  const ExtractionInstructions: string :=
@"
    You are an information extraction assistant.
    
    Given an image (such as a social media post or screenshot), do the following:
    1. Identify the main claim or statement being made (ignore metadata like usernames, dates, likes, retweets, sources, engagement metrics, etc.).
    2. Extract ONLY the core claim text - the actual factual statement or assertion.
    3. Rephrase that claim into a clear, neutral factual question suitable for a web search.
    4. Return your response in the following JSON format (plain JSON only, no markdown):
    
    {
      ""extracted_claim"": ""<only the core claim text, no metadata>"",
      ""question"": ""<the rephrased factual question>""
    }
    
    Make sure the ""question"" field is specific and self-contained (no references like 'this post' or 'the image').
    Return ONLY the JSON object, nothing else."

  /** The verdict prompt is these four fixed pieces with the claim, the
      evidence block and the summary slot between them. */
  const VerdictOpening: string :=
@"You are a fact-checking assistant. Your task is to verify claims against evidence from web searches.

**CLAIM:**
"

  const VerdictBeforeEvidence: string :=
@"

**EVIDENCE FROM WEB SEARCH:**
"

  const VerdictBeforeSummary: string :=
@"

**TAVILY ANSWER SUMMARY:**
"

  const VerdictInstructions: string :=
@"

**INSTRUCTIONS:**
1. Carefully analyze the claim against the provided evidence.
2. Determine if the claim is factually correct or misinformation.
3. If the claim is INCORRECT or MISINFORMATION: Explain why it's false, what the actual facts are, and why it might be spreading misinformation.
4. If the claim is CORRECT: Provide detailed reasoning on why it's accurate based on the evidence, citing specific sources.
5. Consider the credibility of sources and consistency across multiple sources.
6. Return your response in the following JSON format (plain JSON only, no markdown):

{
  ""validity"": true or false,
  ""response"": ""<detailed explanation of your verdict with reasoning and source references>""
}

Return ONLY the JSON object, nothing else."
}
