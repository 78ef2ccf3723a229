TestResult.DisplayName,TestResult.Outcome,TestResult.Duration,TestResult.ResourceCount,RandomSeed
CodeMap.EighthZero (correctness),Passed,00:00:00.4311306,255993,0
CodeMap.EighthZero (well-formedness),Passed,00:00:00.3877780,50571,0
